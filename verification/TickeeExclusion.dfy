/**
 The re-entrancy guard of checkHighPriorityTickees. Any number of checks, nested or concurrent, run
 statement by statement; what they read of tickee, deadline and period, and how many slots they find
 in use, is left to the schedule, so the VM thread may be editing the registry meanwhile. A tickee is
 never run twice at once, provided the VM thread does not clear inProgress under a running tickee.
 */
module TickeeExclusion {

  const NUM_TICKEES := 4

  /** Where a check is: about to test slot i, to compare-and-swap its inProgress, to advance its
      deadline, to return from its tickee, to clear its inProgress. */
  datatype Check =
    | Away
    | Testing(i: nat)
    | Swapping(i: nat)
    | Advancing(i: nat)
    | Running(i: nat)
    | Releasing(i: nat)
  {
    /** Holds slot s: an activation of its tickee is in progress, about to be, or just over. */
    predicate Holding(s: nat) { (Advancing? || Running? || Releasing?) && i == s }
  }

  datatype State = State(inProgress: seq<bool>, checks: seq<Check>)

  /** `counted` says whether the loop test finds slot i in use, `due` whether its tickee is enabled
      and its deadline reached. */
  datatype Action =
    | Begin(c: nat)
    | Next(c: nat, counted: bool, due: bool)
    | Reset(slot: nat)     // addHighPriorityTickee stores 0 into inProgress

  ghost predicate InBounds(s: State) {
    && |s.inProgress| == NUM_TICKEES
    && (forall c :: 0 <= c < |s.checks| && !s.checks[c].Away? ==> s.checks[c].i <= NUM_TICKEES)
    && (forall c :: 0 <= c < |s.checks| && !s.checks[c].Away? && !s.checks[c].Testing? ==>
          s.checks[c].i < NUM_TICKEES)
  }

  function Start(checks: nat): State {
    State(seq(NUM_TICKEES, _ => false), seq(checks, _ => Away))
  }

  function Move(s: State, c: nat, to: Check): State
    requires c < |s.checks|
  {
    s.(checks := s.checks[c := to])
  }

  function StepCheck(s: State, c: nat, counted: bool, due: bool): (s': State)
    requires InBounds(s) && c < |s.checks|
    ensures InBounds(s') && |s'.checks| == |s.checks|
  {
    match s.checks[c]
    case Away => s
    case Testing(i) =>
      if i >= NUM_TICKEES || !counted then Move(s, c, Away)
      else if due && !s.inProgress[i] then Move(s, c, Swapping(i))
      else Move(s, c, Testing(i + 1))
    case Swapping(i) =>
      if s.inProgress[i] then Move(s, c, Testing(i + 1))
      else Move(s, c, Advancing(i)).(inProgress := s.inProgress[i := true])
    case Advancing(i) => Move(s, c, Running(i))
    case Running(i) => Move(s, c, Releasing(i))
    case Releasing(i) => Move(s, c, Testing(i + 1)).(inProgress := s.inProgress[i := false])
  }

  function Step(s: State, act: Action): (s': State)
    requires InBounds(s)
    ensures InBounds(s') && |s'.checks| == |s.checks|
  {
    match act
    case Begin(c) => if c < |s.checks| && s.checks[c].Away? then Move(s, c, Testing(0)) else s
    case Next(c, counted, due) => if c < |s.checks| then StepCheck(s, c, counted, due) else s
    case Reset(slot) => if slot < NUM_TICKEES then s.(inProgress := s.inProgress[slot := false]) else s
  }

  function Run(s: State, sched: seq<Action>): (s': State)
    requires InBounds(s)
    ensures InBounds(s') && |s'.checks| == |s.checks|
  {
    if sched == [] then s else Step(Run(s, sched[..|sched| - 1]), sched[|sched| - 1])
  }

  /** The VM thread clears inProgress of `slot` while an activation holds it. */
  ghost predicate ResetsHeld(s: State, act: Action, slot: nat) {
    act == Reset(slot) && exists c :: 0 <= c < |s.checks| && s.checks[c].Holding(slot)
  }

  ghost predicate CleanFor(s: State, sched: seq<Action>, slot: nat)
    requires InBounds(s)
  {
    sched == [] ||
    (var before := sched[..|sched| - 1];
     CleanFor(s, before, slot) && !ResetsHeld(Run(s, before), sched[|sched| - 1], slot))
  }

  /** At most one check holds the slot, and while one does inProgress says so. */
  ghost predicate Guarded(s: State, slot: nat) {
    && |s.inProgress| == NUM_TICKEES && slot < NUM_TICKEES
    && (forall c, d :: 0 <= c < d < |s.checks| ==> !(s.checks[c].Holding(slot) && s.checks[d].Holding(slot)))
    && (forall c :: 0 <= c < |s.checks| && s.checks[c].Holding(slot) ==> s.inProgress[slot])
  }

  /** Two activations of the slot's tickee are in progress. */
  ghost predicate Doubled(s: State, slot: nat) {
    exists c, d :: 0 <= c < d < |s.checks| && s.checks[c] == Running(slot) && s.checks[d] == Running(slot)
  }

  // --------------------------------------------------------------------- exclusion is kept

  lemma GuardedCheck(s: State, c: nat, counted: bool, due: bool, slot: nat)
    requires InBounds(s) && c < |s.checks| && Guarded(s, slot)
    ensures Guarded(StepCheck(s, c, counted, due), slot)
  {
    var s' := StepCheck(s, c, counted, due);
    assert forall d :: 0 <= d < |s.checks| && d != c ==> s'.checks[d] == s.checks[d];
  }

  lemma GuardedStep(s: State, act: Action, slot: nat)
    requires InBounds(s) && Guarded(s, slot) && !ResetsHeld(s, act, slot)
    ensures Guarded(Step(s, act), slot)
  {
    match act
    case Begin(c) =>
      var s' := Step(s, act);
      assert forall d :: 0 <= d < |s.checks| ==> s'.checks[d].Holding(slot) == s.checks[d].Holding(slot);
    case Next(c, counted, due) => if c < |s.checks| { GuardedCheck(s, c, counted, due, slot); }
    case Reset(_) =>
  }

  lemma {:induction false} GuardedRun(s: State, sched: seq<Action>, slot: nat)
    requires InBounds(s) && Guarded(s, slot) && CleanFor(s, sched, slot)
    ensures Guarded(Run(s, sched), slot)
  {
    if sched != [] {
      var before := sched[..|sched| - 1];
      GuardedRun(s, before, slot);
      GuardedStep(Run(s, before), sched[|sched| - 1], slot);
    }
  }

  /** Mutual exclusion: however many checks run, nested or concurrent, and whatever they find, at
      most one activation of a slot's tickee is in progress at any moment. */
  lemma OneActivation(checks: nat, sched: seq<Action>, slot: nat)
    requires slot < NUM_TICKEES && CleanFor(Start(checks), sched, slot)
    ensures !Doubled(Run(Start(checks), sched), slot)
  {
    GuardedRun(Start(checks), sched, slot);
    var s := Run(Start(checks), sched);
    forall c, d | 0 <= c < d < |s.checks| && s.checks[c] == Running(slot) ensures s.checks[d] != Running(slot) {
      assert s.checks[c].Holding(slot);
    }
  }

  // ------------------------------------------------------------ and cannot be kept otherwise

  /** The statements of check c alone. */
  ghost predicate OnlyOf(c: nat, sched: seq<Action>) {
    forall k :: 0 <= k < |sched| ==> !sched[k].Reset? && sched[k].c == c
  }

  lemma {:induction false} RunAppend(s: State, first: seq<Action>, second: seq<Action>)
    requires InBounds(s)
    ensures Run(s, first + second) == Run(Run(s, first), second)
  {
    if second == [] {
      assert first + second == first;
    } else {
      var n := |second| - 1;
      RunAppend(s, first, second[..n]);
      assert (first + second)[..|first + second| - 1] == first + second[..n];
    }
  }

  lemma {:induction false} WithoutResetsIsClean(s: State, sched: seq<Action>, slot: nat)
    requires InBounds(s) && forall k :: 0 <= k < |sched| ==> !sched[k].Reset?
    ensures CleanFor(s, sched, slot)
  {
    if sched != [] { WithoutResetsIsClean(s, sched[..|sched| - 1], slot); }
  }

  /** The statements check c needs, at most, from where it is to running the slot's tickee. */
  function Distance(check: Check, slot: nat): nat
    requires slot < NUM_TICKEES && (!check.Away? ==> check.i <= NUM_TICKEES)
  {
    var fromAway := 5 * slot + 4;
    match check
    case Away => fromAway
    case Testing(i) => if i <= slot then 5 * (slot - i) + 3 else fromAway + 1
    case Swapping(i) => if i == slot then 2 else if i < slot then 5 * (slot - i) + 2 else fromAway + 5
    case Advancing(i) => if i == slot then 1 else if i < slot then 5 * (slot - i) + 1 else fromAway + 4
    case Running(i) => if i == slot then 0 else if i < slot then 5 * (slot - i) else fromAway + 3
    case Releasing(i) => if i < slot then 5 * (slot - i) - 1 else fromAway + 2
  }

  /** The check's next statement on the shortest way there. */
  function Towards(check: Check, c: nat, slot: nat): Action {
    if check.Away? then Begin(c)
    else Next(c, check.i <= slot, check.i == slot)
  }

  lemma OneStatementNearer(s: State, c: nat, slot: nat)
    requires InBounds(s) && c < |s.checks| && slot < NUM_TICKEES && s.checks[c] != Running(slot)
    requires s.checks[c].Holding(slot) || !s.inProgress[slot]
    ensures var s' := Step(s, Towards(s.checks[c], c, slot));
            && s'.checks == s.checks[c := s'.checks[c]]
            && Distance(s'.checks[c], slot) < Distance(s.checks[c], slot)
            && (s'.checks[c].Holding(slot) || !s'.inProgress[slot])
  {
  }

  /** A check that holds the slot, or finds inProgress clear, can be brought to run the tickee by its
      own statements. */
  lemma {:induction false} Drive(s: State, c: nat, slot: nat) returns (sched: seq<Action>)
    requires InBounds(s) && c < |s.checks| && slot < NUM_TICKEES
    requires s.checks[c].Holding(slot) || !s.inProgress[slot]
    ensures OnlyOf(c, sched) && Run(s, sched).checks == s.checks[c := Running(slot)]
    decreases Distance(s.checks[c], slot)
  {
    if s.checks[c] == Running(slot) {
      sched := [];
    } else {
      var act := Towards(s.checks[c], c, slot);
      OneStatementNearer(s, c, slot);
      var rest := Drive(Step(s, act), c, slot);
      RunAppend(s, [act], rest);
      OneAct(s, act);
      sched := [act] + rest;
    }
  }

  lemma OneAct(s: State, act: Action)
    requires InBounds(s)
    ensures Run(s, [act]) == Step(s, act)
  {
    assert [act][..0] == [];
  }

  /** One check first, then another. */
  lemma DriveTwo(s: State, c: nat, d: nat, slot: nat) returns (sched: seq<Action>)
    requires InBounds(s) && c < |s.checks| && d < |s.checks| && c != d && slot < NUM_TICKEES
    requires s.checks[c].Holding(slot) || !s.inProgress[slot]
    requires s.checks[d].Holding(slot)
    ensures CleanFor(s, sched, slot) && Doubled(Run(s, sched), slot)
  {
    var first := Drive(s, c, slot);
    var second := Drive(Run(s, first), d, slot);
    sched := first + second;
    RunAppend(s, first, second);
    WithoutResetsIsClean(s, sched, slot);
    var checks := Run(s, sched).checks;
    assert checks[if c < d then c else d] == checks[if c < d then d else c] == Running(slot);
  }

  /** From a state that is not guarded a second activation can be reached without any reset. */
  lemma UnguardedDoubles(s: State, slot: nat) returns (sched: seq<Action>)
    requires InBounds(s) && |s.checks| >= 2 && slot < NUM_TICKEES && !Guarded(s, slot)
    ensures CleanFor(s, sched, slot) && Doubled(Run(s, sched), slot)
  {
    var d :| 0 <= d < |s.checks| && s.checks[d].Holding(slot)
             && (!s.inProgress[slot] || exists c :: 0 <= c < |s.checks| && c != d && s.checks[c].Holding(slot));
    if s.inProgress[slot] {
      var c :| 0 <= c < |s.checks| && c != d && s.checks[c].Holding(slot);
      sched := DriveTwo(s, c, d, slot);
    } else {
      sched := DriveTwo(s, if d == 0 then 1 else 0, d, slot);
    }
  }

  /** Without clearing inProgress under a running tickee no second activation can be reached. */
  ghost predicate StaysExclusive(s: State, slot: nat)
    requires InBounds(s)
  {
    forall sched :: CleanFor(s, sched, slot) ==> !Doubled(Run(s, sched), slot)
  }

  /** Exactly the guarded states stay exclusive. */
  lemma GuardedExactly(s: State, slot: nat)
    requires InBounds(s) && |s.checks| >= 2 && slot < NUM_TICKEES
    ensures Guarded(s, slot) <==> StaysExclusive(s, slot)
  {
    if Guarded(s, slot) {
      forall sched | CleanFor(s, sched, slot) ensures !Doubled(Run(s, sched), slot) {
        GuardedRun(s, sched, slot);
        var s' := Run(s, sched);
        forall c, d | 0 <= c < d < |s'.checks| && s'.checks[c] == Running(slot) ensures s'.checks[d] != Running(slot) {
          assert s'.checks[c].Holding(slot);
        }
      }
    } else {
      var sched := UnguardedDoubles(s, slot);
      assert !(CleanFor(s, sched, slot) ==> !Doubled(Run(s, sched), slot));
    }
  }

  /** So the proviso of OneActivation is exact: in a guarded state, clearing inProgress keeps exclusion
      if and only if no check holds the slot at that moment, whichever statement the holder is at. */
  lemma ResetBreaksExclusion(s: State, slot: nat)
    requires InBounds(s) && |s.checks| >= 2 && Guarded(s, slot)
    ensures ResetsHeld(s, Reset(slot), slot) <==> !StaysExclusive(Step(s, Reset(slot)), slot)
  {
    var s' := Step(s, Reset(slot));
    GuardedExactly(s', slot);
    if ResetsHeld(s, Reset(slot), slot) {
      var c :| 0 <= c < |s.checks| && s.checks[c].Holding(slot);
      assert s'.checks[c].Holding(slot) && !s'.inProgress[slot];
    } else {
      GuardedStep(s, Reset(slot), slot);
    }
  }

  /** So it is in every run that has been clean so far. */
  lemma ProvisoIsExact(checks: nat, sched: seq<Action>, slot: nat)
    requires checks >= 2 && slot < NUM_TICKEES && CleanFor(Start(checks), sched, slot)
    ensures var s := Run(Start(checks), sched);
            ResetsHeld(s, Reset(slot), slot) <==> !StaysExclusive(Step(s, Reset(slot)), slot)
  {
    GuardedRun(Start(checks), sched, slot);
    ResetBreaksExclusion(Run(Start(checks), sched), slot);
  }

  /** And it happens: from the start two checks and one re-registration suffice, for every slot. */
  lemma ExclusionFails(checks: nat, slot: nat) returns (sched: seq<Action>)
    requires checks >= 2 && slot < NUM_TICKEES
    ensures Doubled(Run(Start(checks), sched), slot)
  {
    var s := Start(checks);
    var first := Drive(s, 0, slot);
    var s1 := Run(s, first);
    assert s1.checks[0].Holding(slot);
    OneAct(s1, Reset(slot));
    RunAppend(s, first, [Reset(slot)]);
    var second := DriveTwo(Step(s1, Reset(slot)), 1, 0, slot);
    RunAppend(s, first + [Reset(slot)], second);
    sched := first + [Reset(slot)] + second;
  }
}
