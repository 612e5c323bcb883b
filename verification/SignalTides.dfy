/**
 The tide marks under compare-and-swap, for every interleaving of requesters with each other and
 with the responder, between two resets of the tide set in question.
 */
module SignalTides {
  import opened SignalProtocol

  /** Side a is the one being emptied. */
  predicate Resets(s: State, act: Action, a: bool) {
    act == Respond && (s.responder == ResettingLow(!a) || s.responder == ResettingHigh(!a))
  }

  ghost predicate ResetFree(s: State, sched: seq<Action>, a: bool)
    requires InBounds(s)
  {
    sched == [] ||
    (var before := sched[..|sched| - 1];
     ResetFree(s, before, a) && !Resets(Run(s, before), sched[|sched| - 1], a))
  }

  predicate Wider(tide: Tide, tide': Tide) {
    tide'.low <= tide.low && tide.high <= tide'.high
  }

  lemma RequesterOnlyWidens(s: State, t: nat, a: bool)
    requires InBounds(s) && t < |s.requesters|
    ensures Wider(s.TideOf(a), StepRequester(s, t).TideOf(a))
  {
    assert RequesterInBounds(s.requesters[t], |s.slots|);
    match s.requesters[t]
    case SwappingLow(_, _, _) =>
    case SwappingHigh(_, _, _) =>
    case _ => assert StepRequester(s, t).TideOf(a) == s.TideOf(a);
  }

  lemma StepOnlyWidens(s: State, act: Action, a: bool)
    requires InBounds(s) && !Resets(s, act, a)
    ensures Wider(s.TideOf(a), Step(s, act).TideOf(a))
  {
    match act
    case Request(t) => if t < |s.requesters| { RequesterOnlyWidens(s, t, a); }
    case Respond => assert StepResponder(s).TideOf(a) == s.TideOf(a);
    case _ =>
  }

  /** Between resets a side's low mark only falls and its high mark only rises. */
  lemma {:induction false} TidesOnlyWiden(s: State, sched: seq<Action>, a: bool)
    requires InBounds(s) && ResetFree(s, sched, a)
    ensures Wider(s.TideOf(a), Run(s, sched).TideOf(a))
  {
    if sched != [] {
      var before := sched[..|sched| - 1];
      TidesOnlyWiden(s, before, a);
      StepOnlyWidens(Run(s, before), sched[|sched| - 1], a);
    }
  }

  /** How far requester t has got with marking i on side a. */
  predicate MarkedSoFar(r: Requester, tide: Tide, i: int, a: bool) {
    match r
    case ReadingLow(j, b) => j == i && b == a
    case SwappingLow(j, b, _) => j == i && b == a
    case ReadingHigh(j, b) => j == i && b == a && tide.low <= i
    case SwappingHigh(j, b, _) => j == i && b == a && tide.low <= i
    case RaisingFlag(j) => j == i && tide.Covers(i)
    case Forcing(j) => j == i && tide.Covers(i)
    case Resting => tide.Covers(i)
    case _ => false
  }

  predicate BeginsAgain(act: Action, t: nat) { act.Begin? && act.t == t }

  lemma OthersStayMarking(s: State, t: nat, u: nat)
    requires InBounds(s) && t < |s.requesters| && u < |s.requesters| && u != t
    ensures StepMark(s, t).requesters[u] == s.requesters[u]
  {
  }

  lemma OthersStay(s: State, t: nat, u: nat)
    requires InBounds(s) && t < |s.requesters| && u < |s.requesters| && u != t
    ensures StepRequester(s, t).requesters[u] == s.requesters[u]
  {
    OthersStayMarking(s, t, u);
  }

  lemma MarkingOwnStep(s: State, t: nat, i: int, a: bool)
    requires InBounds(s) && t < |s.requesters| && MarkedSoFar(s.requesters[t], s.TideOf(a), i, a)
    ensures var s' := StepRequester(s, t); MarkedSoFar(s'.requesters[t], s'.TideOf(a), i, a)
  {
    var r := s.requesters[t];
    if !r.SwappingLow? && !r.SwappingHigh? {
      assert StepRequester(s, t).TideOf(a) == s.TideOf(a);
    }
  }

  lemma MarkingStep(s: State, act: Action, t: nat, i: int, a: bool)
    requires InBounds(s) && t < |s.requesters| && MarkedSoFar(s.requesters[t], s.TideOf(a), i, a)
    requires !Resets(s, act, a) && !BeginsAgain(act, t)
    ensures var s' := Step(s, act); MarkedSoFar(s'.requesters[t], s'.TideOf(a), i, a)
  {
    if act == Request(t) {
      MarkingOwnStep(s, t, i, a);
    } else {
      StepOnlyWidens(s, act, a);
      if act.Request? && act.t < |s.requesters| { OthersStay(s, act.t, t); }
    }
  }

  /** Whoever starts its compare-and-swap loops on side a after the last reset and finishes them
      before the next one lies inside [low, high], however the other requesters interleave. */
  lemma {:induction false} FinishedRequestersAreCovered(s: State, sched: seq<Action>, t: nat, i: int, a: bool)
    requires InBounds(s) && t < |s.requesters| && s.requesters[t] == ReadingLow(i, a)
    requires ResetFree(s, sched, a)
    requires forall k :: 0 <= k < |sched| ==> !BeginsAgain(sched[k], t)
    ensures var s' := Run(s, sched);
            && MarkedSoFar(s'.requesters[t], s'.TideOf(a), i, a)
            && (!s'.requesters[t].InWindow() ==> s'.TideOf(a).Covers(i))
  {
    if sched != [] {
      var before := sched[..|sched| - 1];
      FinishedRequestersAreCovered(s, before, t, i, a);
      MarkingStep(Run(s, before), sched[|sched| - 1], t, i, a);
    }
  }
}
