/**
 The heartbeat on threads of its own: any number of checks and one VM thread that registers and
 removes tickees, all statement by statement, over one clock that never runs back. A slot's fields
 tell whose they are: a registration is known by a number, 0 being the null pointer or a deadline
 that is nobody's. Which slot the VM thread's search finds is left to the schedule.

 Three things can go wrong, each at one kind of statement: a slot disabled under a check that can
 still call its function makes the call improper; inProgress cleared under a running tickee, which is
 the subject of TickeeExclusion, lets it run twice; and a running tickee released under a check that
 stands before its swap having found an older deadline reached makes a call before its deadline.
 */
module TickeeRaces {

  const NUM_TICKEES := 4
  const HICCUP_THRESHOLD := 10_000_000

  /** tickee, periodOf and deadlineOf are the registrations the pointer, period and deadline are of. */
  datatype Slot = Slot(
    tickee: nat, periodOf: nat, period: nat, deadlineOf: nat, deadline: nat, inProgress: bool)

  const FREE := Slot(0, 0, 0, 0, 0, false)

  /** What is called, whose deadline was found reached, whose period was added; the check's clock, and
      the deadline the period was added to. */
  datatype Call = Call(tickee: nat, found: nat, added: nat, clock: nat, due: nat)

  /** Where the VM thread is with registration r of the given period, or with a removal if r is 0. */
  datatype Vm =
    | Idle
    | Disabling(i: nat, r: nat, period: nat)
    | WritingPeriod(i: nat, r: nat, period: nat)
    | WritingDeadline(i: nat, r: nat)
    | ClearingProgress(i: nat, r: nat)
    | Enabling(i: nat, r: nat)
    | Counting(i: nat, r: nat)

  /** Where a check that was given `clock` is; found, added and due as in Call. */
  datatype Check =
    | Away
    | AtLoop(i: nat, clock: nat)
    | AtTickee(i: nat, clock: nat)
    | AtProgress(i: nat, clock: nat)
    | AtDeadline(i: nat, clock: nat)
    | AtSwap(i: nat, clock: nat, found: nat)
    | AtHiccup(i: nat, clock: nat, found: nat)
    | AtAdvance(i: nat, clock: nat, found: nat, late: bool)
    | AtCall(i: nat, clock: nat, found: nat, added: nat, due: nat)
    | Running(i: nat, clock: nat)
  {
    /** The deadline has been found reached and the function not yet called. */
    predicate PastTest() { AtSwap? || AtHiccup? || AtAdvance? || AtCall? }

    predicate BeforeTest() { AtProgress? || AtDeadline? }

    predicate Holding(k: nat) { (AtHiccup? || AtAdvance? || AtCall? || Running?) && i == k }

    /** The function of slot k, found, can still be called: the deadline is or will be found reached. */
    predicate Armed(k: nat, slot: Slot) { (PastTest() || (BeforeTest() && clock >= slot.deadline)) && i == k }
  }

  datatype State = State(
    slots: seq<Slot>, used: nat, vm: Vm, checks: seq<Check>, registrations: nat, time: nat, calls: seq<Call>)

  datatype Action =
    | Pass(usecs: nat)
    | Register(slot: nat, period: nat)
    | Remove(slot: nat)
    | Continue             // the VM thread's next statement
    | Begin(c: nat)        // a heartbeat: check c is given the time
    | Next(c: nat)         // the next statement of check c

  function Start(checks: nat): State {
    State([FREE, FREE, FREE, FREE], 0, Idle, seq(checks, _ => Away), 0, 0, [])
  }

  ghost predicate InBounds(s: State) {
    && |s.slots| == NUM_TICKEES && s.used <= NUM_TICKEES
    && (!s.vm.Idle? ==> s.vm.i < NUM_TICKEES && s.vm.i <= s.used)
    && (forall c :: 0 <= c < |s.checks| && !s.checks[c].Away? ==>
          s.checks[c].i <= s.used && (!s.checks[c].AtLoop? ==> s.checks[c].i < s.used))
  }

  // ------------------------------------------------------------------------- the statements

  function SetSlot(s: State, i: nat, slot: Slot): State
    requires i < |s.slots|
  {
    s.(slots := s.slots[i := slot])
  }

  /** Lines 186-189 and 204-213. */
  function StepVm(s: State): (s': State)
    requires InBounds(s)
    ensures InBounds(s') && s'.checks == s.checks && s'.calls == s.calls && s'.time == s.time
  {
    match s.vm
    case Idle => s
    case Disabling(i, r, p) =>
      SetSlot(s, i, s.slots[i].(tickee := 0)).(vm := if r == 0 then Idle else WritingPeriod(i, r, p))
    case WritingPeriod(i, r, p) =>
      SetSlot(s, i, s.slots[i].(periodOf := r, period := p)).(vm := WritingDeadline(i, r))
    case WritingDeadline(i, r) =>
      SetSlot(s, i, s.slots[i].(deadlineOf := r, deadline := s.slots[i].period + s.time)).(
        vm := ClearingProgress(i, r))
    case ClearingProgress(i, r) => SetSlot(s, i, s.slots[i].(inProgress := false)).(vm := Enabling(i, r))
    case Enabling(i, r) => SetSlot(s, i, s.slots[i].(tickee := r)).(vm := Counting(i, r))
    case Counting(i, r) => s.(used := if i >= s.used then s.used + 1 else s.used, vm := Idle)
  }

  function Move(s: State, c: nat, to: Check): State
    requires c < |s.checks|
  {
    s.(checks := s.checks[c := to])
  }

  /** The slot once its deadline has been advanced. */
  function Advanced(slot: Slot, clock: nat, late: bool): Slot {
    if late then slot.(deadlineOf := slot.periodOf, deadline := clock + slot.period)
    else slot.(deadlineOf := if slot.deadlineOf == slot.periodOf then slot.periodOf else 0,
               deadline := slot.deadline + slot.period)
  }

  /** Lines 245-248: the tests. */
  function StepTest(s: State, c: nat): (s': State)
    requires InBounds(s) && c < |s.checks|
    ensures InBounds(s') && |s'.checks| == |s.checks|
  {
    match s.checks[c]
    case AtLoop(i, now) => Move(s, c, if i < s.used then AtTickee(i, now) else Away)
    case AtTickee(i, now) =>
      Move(s, c, if s.slots[i].tickee != 0 then AtProgress(i, now) else AtLoop(i + 1, now))
    case AtProgress(i, now) =>
      Move(s, c, if s.slots[i].inProgress then AtLoop(i + 1, now) else AtDeadline(i, now))
    case AtDeadline(i, now) =>
      Move(s, c, if now >= s.slots[i].deadline then AtSwap(i, now, s.slots[i].deadlineOf) else AtLoop(i + 1, now))
    case _ => s
  }

  /** Lines 249-259: from the swap to the return of the tickee and the release. */
  function StepRun(s: State, c: nat): (s': State)
    requires InBounds(s) && c < |s.checks|
    ensures InBounds(s') && |s'.checks| == |s.checks|
  {
    match s.checks[c]
    case AtSwap(i, now, f) =>
      if s.slots[i].inProgress then Move(s, c, AtLoop(i + 1, now))
      else SetSlot(Move(s, c, AtHiccup(i, now, f)), i, s.slots[i].(inProgress := true))
    case AtHiccup(i, now, f) => Move(s, c, AtAdvance(i, now, f, s.slots[i].deadline + HICCUP_THRESHOLD < now))
    case AtAdvance(i, now, f, late) =>
      SetSlot(Move(s, c, AtCall(i, now, f, s.slots[i].periodOf, s.slots[i].deadline)), i,
              Advanced(s.slots[i], now, late))
    case AtCall(i, now, f, a, due) =>
      Move(s, c, Running(i, now)).(calls := s.calls + [Call(s.slots[i].tickee, f, a, now, due)])
    case Running(i, now) => SetSlot(Move(s, c, AtLoop(i + 1, now)), i, s.slots[i].(inProgress := false))
    case _ => s
  }

  predicate Tests(check: Check) { check.AtLoop? || check.AtTickee? || check.AtProgress? || check.AtDeadline? }

  function StepCheck(s: State, c: nat): (s': State)
    requires InBounds(s) && c < |s.checks|
    ensures InBounds(s') && |s'.checks| == |s.checks|
  {
    if Tests(s.checks[c]) then StepTest(s, c) else StepRun(s, c)
  }

  /** A period of zero removes; periods whose conversion wraps to zero are left out. */
  function Step(s: State, act: Action): (s': State)
    requires InBounds(s)
    ensures InBounds(s') && |s'.checks| == |s.checks|
  {
    match act
    case Pass(usecs) => s.(time := s.time + usecs)
    case Register(slot, period) =>
      if s.vm.Idle? && slot < NUM_TICKEES && slot <= s.used && period > 0
      then s.(vm := Disabling(slot, s.registrations + 1, period), registrations := s.registrations + 1) else s
    case Remove(slot) => if s.vm.Idle? && slot < s.used then s.(vm := Disabling(slot, 0, 0)) else s
    case Continue => StepVm(s)
    case Begin(c) => if c < |s.checks| && s.checks[c].Away? then Move(s, c, AtLoop(0, s.time)) else s
    case Next(c) => if c < |s.checks| then StepCheck(s, c) else s
  }

  function Run(s: State, sched: seq<Action>): (s': State)
    requires InBounds(s)
    ensures InBounds(s') && |s'.checks| == |s.checks|
  {
    if sched == [] then s else Step(Run(s, sched[..|sched| - 1]), sched[|sched| - 1])
  }

  lemma {:induction false} RunAppend(s: State, first: seq<Action>, second: seq<Action>)
    requires InBounds(s)
    ensures Run(s, first + second) == Run(Run(s, first), second)
  {
    if second == [] {
      assert first + second == first;
    } else {
      var n := |second| - 1;
      RunAppend(s, first, second[..n]);
      assert (first + second)[..|first + second| - 1] == first + second[..n];
    }
  }

  lemma OneAct(s: State, act: Action)
    requires InBounds(s)
    ensures Run(s, [act]) == Step(s, act)
  {
    assert [act][..0] == [];
  }

  /** A check that has compared the deadline with its clock advances it, if nobody interferes, to a period
      from its clock when the deadline is more than 10 seconds past, and otherwise by a period. */
  lemma AdvanceIs(s: State, c: nat)
    requires InBounds(s) && c < |s.checks| && s.checks[c].AtHiccup?
    ensures var s', k := Step(Step(s, Next(c)), Next(c)), s.checks[c].i;
            var was := s.slots[k];
            && |s'.slots| == |s.slots| && s'.checks[c].AtCall? && s'.checks[c].due == was.deadline
            && s'.slots[k].deadline ==
               (if was.deadline + 10_000_000 < s.checks[c].clock then s.checks[c].clock + was.period
                else was.deadline + was.period)
            && s'.slots[k].tickee == was.tickee && s'.slots[k].period == was.period
            && forall j :: 0 <= j < |s.slots| && j != k ==> s'.slots[j] == s.slots[j]
  {
  }

  // -------------------------------------------------------------------------- proper calls

  /** The function called was registered, and the deadline tested and the period added were its own. */
  predicate Proper(call: Call) { call.tickee != 0 && call.found == call.tickee && call.added == call.tickee }

  ghost predicate AllProper(calls: seq<Call>) {
    forall k :: 0 <= k < |calls| ==> Proper(calls[k])
  }

  /** The VM thread disables a slot while some check can still call its function. */
  ghost predicate DisablesArmed(s: State, act: Action)
    requires InBounds(s)
  {
    act.Continue? && s.vm.Disabling? &&
    exists c :: 0 <= c < |s.checks| && s.checks[c].Armed(s.vm.i, s.slots[s.vm.i])
  }

  ghost predicate Clean(s: State, sched: seq<Action>)
    requires InBounds(s)
  {
    sched == [] ||
    (var before := sched[..|sched| - 1];
     Clean(s, before) && !DisablesArmed(Run(s, before), sched[|sched| - 1]))
  }

  /** A live slot is all of one registration. */
  predicate OfOne(slot: Slot) { slot.tickee != 0 ==> slot.periodOf == slot.tickee && slot.deadlineOf == slot.tickee }

  /** What the VM thread has written so far to the slot it has disabled. */
  predicate Written(vm: Vm, slots: seq<Slot>) {
    && (vm.Disabling? || vm.WritingPeriod? ==> (vm.r != 0 ==> vm.period > 0))
    && (vm.WritingPeriod? || vm.WritingDeadline? || vm.ClearingProgress? || vm.Enabling? ==>
          vm.i < |slots| && vm.r != 0 && slots[vm.i].tickee == 0)
    && (vm.WritingDeadline? || vm.ClearingProgress? || vm.Enabling? ==>
          slots[vm.i].periodOf == vm.r && slots[vm.i].period > 0)
    && (vm.ClearingProgress? || vm.Enabling? ==> slots[vm.i].deadlineOf == vm.r)
  }

  /** A check that found a deadline reached stands before a live slot, and what it has used was the
      slot's own; one that may still find a disabled slot's deadline will not find it reached. */
  predicate Consistent(check: Check, slots: seq<Slot>) {
    && (check.BeforeTest() ==>
          check.i < |slots| && (slots[check.i].tickee != 0 || check.clock < slots[check.i].deadline))
    && (check.PastTest() ==>
          check.i < |slots| && slots[check.i].tickee != 0 && check.found == slots[check.i].tickee)
    && (check.AtCall? ==> check.added == slots[check.i].tickee)
  }

  ghost predicate Whole(s: State) {
    && (forall k :: 0 <= k < |s.slots| ==> OfOne(s.slots[k]))
    && Written(s.vm, s.slots)
    && (forall c :: 0 <= c < |s.checks| ==> Consistent(s.checks[c], s.slots))
    && (forall c :: 0 <= c < |s.checks| && !s.checks[c].Away? ==> s.checks[c].clock <= s.time)
    && AllProper(s.calls)
  }

  lemma WholeVm(s: State)
    requires InBounds(s) && Whole(s) && !DisablesArmed(s, Continue)
    ensures Whole(StepVm(s))
  {
    var s' := StepVm(s);
    forall c | 0 <= c < |s.checks| ensures Consistent(s.checks[c], s'.slots) {
      assert Consistent(s.checks[c], s.slots);
      if s.vm.Disabling? { assert !s.checks[c].Armed(s.vm.i, s.slots[s.vm.i]); }
    }
  }

  lemma WholeTest(s: State, c: nat)
    requires InBounds(s) && Whole(s) && c < |s.checks|
    ensures Whole(StepTest(s, c))
  {
    assert Consistent(s.checks[c], s.slots);
  }

  lemma WholeRun(s: State, c: nat)
    requires InBounds(s) && Whole(s) && c < |s.checks|
    ensures Whole(StepRun(s, c))
  {
    var s' := StepRun(s, c);
    assert Consistent(s.checks[c], s.slots);
    forall d | 0 <= d < |s.checks| ensures Consistent(s'.checks[d], s'.slots) {
      assert Consistent(s.checks[d], s.slots);
    }
  }

  lemma WholeStep(s: State, act: Action)
    requires InBounds(s) && Whole(s) && !DisablesArmed(s, act)
    ensures Whole(Step(s, act))
  {
    match act
    case Continue => WholeVm(s);
    case Next(c) => if c < |s.checks| { WholeTest(s, c); WholeRun(s, c); }
    case _ =>
  }

  lemma {:induction false} WholeAlways(s: State, sched: seq<Action>)
    requires InBounds(s) && Whole(s) && Clean(s, sched)
    ensures Whole(Run(s, sched))
  {
    if sched != [] {
      var before := sched[..|sched| - 1];
      WholeAlways(s, before);
      WholeStep(Run(s, before), sched[|sched| - 1]);
    }
  }

  /** However checks and registrations interleave, as long as no slot is disabled under a check that
      can still call its function, every function called was registered and was called on its own
      deadline and period. */
  lemma CallsAreProper(checks: nat, sched: seq<Action>)
    requires Clean(Start(checks), sched)
    ensures AllProper(Run(Start(checks), sched).calls)
  {
    WholeAlways(Start(checks), sched);
  }

  // --------------------------------------------------------------------------- timely calls

  predicate Timely(call: Call) { call.due <= call.clock }

  ghost predicate AllTimely(calls: seq<Call>) {
    forall k :: 0 <= k < |calls| ==> Timely(calls[k])
  }

  /** inProgress is cleared under a check that holds the slot. */
  ghost predicate ClearsHeld(s: State, act: Action) {
    act.Continue? && s.vm.ClearingProgress? && exists c :: 0 <= c < |s.checks| && s.checks[c].Holding(s.vm.i)
  }

  /** Stands before its swap for slot k having found an older deadline reached. */
  predicate Stale(check: Check, k: nat, slot: Slot) { check.AtSwap? && check.i == k && check.clock < slot.deadline }

  /** A slot is released under a check that found an older deadline reached. */
  ghost predicate ReleasesUnder(s: State, act: Action)
    requires InBounds(s)
  {
    act.Next? && act.c < |s.checks| && s.checks[act.c].Running? &&
    var k := s.checks[act.c].i;
    exists c :: 0 <= c < |s.checks| && Stale(s.checks[c], k, s.slots[k])
  }

  ghost predicate Careful(s: State, sched: seq<Action>)
    requires InBounds(s)
  {
    sched == [] ||
    (var before, act := sched[..|sched| - 1], sched[|sched| - 1];
     var s' := Run(s, before);
     Careful(s, before) && !DisablesArmed(s', act) && !ClearsHeld(s', act) && !ReleasesUnder(s', act))
  }

  /** At most one check holds slot k, and while one does inProgress says so. */
  ghost predicate Guarded(s: State, k: nat) {
    && k < |s.slots|
    && (forall c, d :: 0 <= c < d < |s.checks| ==> !(s.checks[c].Holding(k) && s.checks[d].Holding(k)))
    && (forall c :: 0 <= c < |s.checks| && s.checks[c].Holding(k) ==> s.slots[k].inProgress)
  }

  /** The deadline a check is about to advance has been reached, unless it will not get to it. */
  predicate OnTime(check: Check, slots: seq<Slot>) {
    && (check.AtSwap? ==> check.i < |slots| && (Stale(check, check.i, slots[check.i]) ==> slots[check.i].inProgress))
    && (check.AtHiccup? || check.AtAdvance? ==> check.i < |slots| && check.clock >= slots[check.i].deadline)
    && (check.AtCall? ==> check.clock >= check.due)
  }

  ghost predicate Punctual(s: State) {
    && (forall k :: 0 <= k < |s.slots| ==> Guarded(s, k))
    && (forall c :: 0 <= c < |s.checks| ==> OnTime(s.checks[c], s.slots))
    && AllTimely(s.calls)
  }

  /** A disabled slot has no check past its test. */
  lemma NobodyPastTest(s: State, c: nat, k: nat)
    requires Whole(s) && c < |s.checks| && k < |s.slots| && s.slots[k].tickee == 0
    ensures s.checks[c].PastTest() ==> s.checks[c].i != k
  {
    assert Consistent(s.checks[c], s.slots);
  }

  lemma PunctualVm(s: State)
    requires InBounds(s) && Whole(s) && Punctual(s) && !ClearsHeld(s, Continue)
    ensures Punctual(StepVm(s))
  {
    var s' := StepVm(s);
    forall k | 0 <= k < |s.slots| ensures Guarded(s', k) {
      assert Guarded(s, k);
    }
    forall c | 0 <= c < |s.checks| ensures OnTime(s.checks[c], s'.slots) {
      assert OnTime(s.checks[c], s.slots);
      if s.vm.WritingDeadline? || s.vm.ClearingProgress? { NobodyPastTest(s, c, s.vm.i); }
    }
  }

  lemma PunctualTest(s: State, c: nat)
    requires InBounds(s) && Punctual(s) && c < |s.checks|
    ensures Punctual(StepTest(s, c))
  {
    var s' := StepTest(s, c);
    assert s'.slots == s.slots;
    forall k | 0 <= k < |s.slots| ensures Guarded(s', k) {
      assert Guarded(s, k) && (s'.checks[c].Holding(k) ==> s.checks[c].Holding(k));
    }
    assert OnTime(s.checks[c], s.slots);
  }

  lemma GuardedRun(s: State, c: nat, k: nat)
    requires InBounds(s) && c < |s.checks| && Guarded(s, k)
    ensures Guarded(StepRun(s, c), k)
  {
    var s' := StepRun(s, c);
    assert forall d :: 0 <= d < |s.checks| && d != c ==> s'.checks[d] == s.checks[d];
  }

  lemma OnTimeRun(s: State, c: nat, d: nat)
    requires InBounds(s) && Punctual(s) && c < |s.checks| && d < |s.checks|
    requires !ReleasesUnder(s, Next(c))
    ensures OnTime(StepRun(s, c).checks[d], StepRun(s, c).slots)
  {
    assert OnTime(s.checks[d], s.slots) && OnTime(s.checks[c], s.slots);
    if !s.checks[c].Away? && s.checks[c].i < |s.slots| {
      var k := s.checks[c].i;
      assert Guarded(s, k);
      if s.checks[c].Holding(k) && d != c { assert !s.checks[d].Holding(k); }
    }
  }

  lemma PunctualRun(s: State, c: nat)
    requires InBounds(s) && Punctual(s) && c < |s.checks| && !ReleasesUnder(s, Next(c))
    ensures Punctual(StepRun(s, c))
  {
    var s' := StepRun(s, c);
    forall k | 0 <= k < |s.slots| ensures Guarded(s', k) { GuardedRun(s, c, k); }
    forall d | 0 <= d < |s.checks| ensures OnTime(s'.checks[d], s'.slots) { OnTimeRun(s, c, d); }
    assert OnTime(s.checks[c], s.slots);
  }

  lemma PunctualBegin(s: State, c: nat)
    requires InBounds(s) && Punctual(s)
    ensures Punctual(Step(s, Begin(c)))
  {
    var s' := Step(s, Begin(c));
    forall k | 0 <= k < |s.slots| ensures Guarded(s', k) { assert Guarded(s, k); }
  }

  lemma PunctualStep(s: State, act: Action)
    requires InBounds(s) && Whole(s) && Punctual(s)
    requires !DisablesArmed(s, act) && !ClearsHeld(s, act) && !ReleasesUnder(s, act)
    ensures Punctual(Step(s, act))
  {
    match act
    case Continue => PunctualVm(s);
    case Begin(c) => PunctualBegin(s, c);
    case Next(c) =>
      if c < |s.checks| { if Tests(s.checks[c]) { PunctualTest(s, c); } else { PunctualRun(s, c); } }
    case _ =>
      var s' := Step(s, act);
      assert forall k :: 0 <= k < |s.slots| && Guarded(s, k) ==> Guarded(s', k);
  }

  lemma {:induction false} PunctualAlways(s: State, sched: seq<Action>)
    requires InBounds(s) && Whole(s) && Punctual(s) && Careful(s, sched)
    ensures Whole(Run(s, sched)) && Punctual(Run(s, sched))
  {
    if sched != [] {
      var before := sched[..|sched| - 1];
      PunctualAlways(s, before);
      WholeStep(Run(s, before), sched[|sched| - 1]);
      PunctualStep(Run(s, before), sched[|sched| - 1]);
    }
  }

  /** If besides inProgress is never cleared under a running tickee, and no slot is released under a
      check that found an older deadline reached, then no call comes before its deadline and no
      tickee is ever run twice at once. */
  lemma CallsAreTimely(checks: nat, sched: seq<Action>)
    requires Careful(Start(checks), sched)
    ensures var s := Run(Start(checks), sched);
            AllTimely(s.calls) && AllProper(s.calls) && !TwiceRunning(s)
  {
    var s := Run(Start(checks), sched);
    PunctualAlways(Start(checks), sched);
    forall c, d | 0 <= c < d < checks && s.checks[c].Running? && s.checks[d].Running?
      ensures s.checks[c].i != s.checks[d].i
    {
      assert Guarded(s, s.checks[c].i) && s.checks[c].Holding(s.checks[c].i);
    }
  }

  // ------------------------------------------------------------- bringing a check to its call

  /** Statements until the tickee of the check's slot runs. */
  function ToRun(check: Check): nat {
    match check
    case Away => 9
    case AtLoop(_, _) => 8
    case AtTickee(_, _) => 7
    case AtProgress(_, _) => 6
    case AtDeadline(_, _) => 5
    case AtSwap(_, _, _) => 4
    case AtHiccup(_, _, _) => 3
    case AtAdvance(_, _, _, _) => 2
    case AtCall(_, _, _, _, _) => 1
    case Running(_, _) => 0
  }

  /** Nothing on its way to calling the function of slot i will turn the check away. */
  predicate Ready(check: Check, i: nat, slot: Slot) {
    && !check.Away? && check.i == i
    && (check.AtLoop? || check.AtTickee? ==> slot.tickee != 0)
    && (ToRun(check) >= 5 ==> check.clock >= slot.deadline)
    && (ToRun(check) >= 4 ==> !slot.inProgress)
  }

  /** What statements of check c alone, on its way to calling slot i's function, may change. */
  predicate OnlyChecked(s: State, s': State, c: nat, i: nat)
    requires c < |s.checks| == |s'.checks| && i < |s.slots| == |s'.slots|
  {
    && s' == s.(checks := s.checks[c := s'.checks[c]], slots := s.slots[i := s'.slots[i]], calls := s'.calls)
    && s'.slots[i].tickee == s.slots[i].tickee && s'.slots[i].period == s.slots[i].period
    && (ToRun(s'.checks[c]) >= 4 ==> s'.slots[i] == s.slots[i] && s'.calls == s.calls)
  }

  /** The deadline the check is going to add the period to, or has. */
  function Due(check: Check, slot: Slot): nat { if check.AtCall? then check.due else slot.deadline }

  /** From s to s' check c has come nearer to calling slot i's function, by its own statements. */
  predicate Nearer(s: State, s': State, c: nat, i: nat)
    requires c < |s.checks| == |s'.checks| && i < |s.slots| == |s'.slots|
  {
    && OnlyChecked(s, s', c, i) && Ready(s'.checks[c], i, s'.slots[i])
    && !s.checks[c].Away? && s'.checks[c].clock == s.checks[c].clock
    && (s'.checks[c].Running? || Due(s'.checks[c], s'.slots[i]) == Due(s.checks[c], s.slots[i]))
  }

  predicate LastCall(calls: seq<Call>, tickee: nat, clock: nat, due: nat) {
    |calls| > 0 &&
    var call := calls[|calls| - 1];
    call.tickee == tickee && call.clock == clock && call.due == due
  }

  lemma OneNearer(s: State, c: nat, i: nat)
    requires InBounds(s) && c < |s.checks| && i < s.used && Ready(s.checks[c], i, s.slots[i])
    requires !s.checks[c].Running?
    ensures var s' := Step(s, Next(c));
            && Nearer(s, s', c, i) && ToRun(s'.checks[c]) == ToRun(s.checks[c]) - 1
            && (s'.checks[c].Running? ==>
                  LastCall(s'.calls, s.slots[i].tickee, s.checks[c].clock, Due(s.checks[c], s.slots[i])))
  {
  }

  lemma NearerOn(s: State, s1: State, s2: State, c: nat, i: nat)
    requires c < |s.checks| == |s1.checks| == |s2.checks| && i < |s.slots| == |s1.slots| == |s2.slots|
    requires Nearer(s, s1, c, i) && Nearer(s1, s2, c, i) && !s1.checks[c].Running?
    requires ToRun(s2.checks[c]) <= ToRun(s1.checks[c])
    ensures Nearer(s, s2, c, i)
  {
  }

  /** Statements of check c that are no releases. */
  lemma CarefulFirst(s: State, act: Action, rest: seq<Action>)
    requires InBounds(s) && !DisablesArmed(s, act) && !ClearsHeld(s, act) && !ReleasesUnder(s, act)
    requires Careful(Step(s, act), rest)
    ensures Careful(s, [act] + rest)
  {
    var sched := [act] + rest;
    if rest == [] {
      assert sched[..0] == [] && sched == [act];
    } else {
      var n := |rest| - 1;
      CarefulFirst(s, act, rest[..n]);
      assert sched[..|sched| - 1] == [act] + rest[..n];
      OneAct(s, act);
      RunAppend(s, [act], rest[..n]);
    }
  }

  /** A ready check can be brought as near to its call as wanted; at the end it has called what the
      slot holds, at its clock, for the deadline the slot had. */
  lemma {:induction false} Drive(s: State, c: nat, i: nat, goal: nat) returns (sched: seq<Action>)
    requires InBounds(s) && c < |s.checks| && i < s.used && Ready(s.checks[c], i, s.slots[i])
    requires goal < ToRun(s.checks[c])
    ensures OnlyChecks(sched) && Careful(s, sched)
    ensures var s' := Run(s, sched);
            && Nearer(s, s', c, i) && ToRun(s'.checks[c]) == goal
            && (goal == 0 ==>
                  LastCall(s'.calls, s.slots[i].tickee, s.checks[c].clock, Due(s.checks[c], s.slots[i])))
    decreases ToRun(s.checks[c])
  {
    var act := Next(c);
    var s1 := Step(s, act);
    OneAct(s, act);
    OneNearer(s, c, i);
    assert [act] + [] == [act];
    if ToRun(s1.checks[c]) == goal {
      sched := [act];
      CarefulFirst(s, act, []);
    } else {
      var rest := Drive(s1, c, i, goal);
      RunAppend(s, [act], rest);
      CarefulFirst(s, act, rest);
      NearerOn(s, s1, Run(s1, rest), c, i);
      sched := [act] + rest;
    }
  }

  ghost predicate OnlyChecks(sched: seq<Action>) {
    forall k :: 0 <= k < |sched| ==> sched[k].Next?
  }

  lemma {:induction false} ChecksAloneAreClean(s: State, sched: seq<Action>)
    requires InBounds(s) && OnlyChecks(sched)
    ensures Clean(s, sched)
  {
    if sched != [] { ChecksAloneAreClean(s, sched[..|sched| - 1]); }
  }

  // ----------------------------------------------------------- disabling a slot, exactly

  /** Whoever finds inProgress set will find somebody to clear it. */
  ghost predicate Held(s: State) {
    forall k :: 0 <= k < |s.slots| && s.slots[k].inProgress ==>
      exists c :: 0 <= c < |s.checks| && s.checks[c].Holding(k)
  }

  lemma HeldVm(s: State)
    requires InBounds(s) && Held(s)
    ensures Held(StepVm(s))
  {
    var s' := StepVm(s);
    assert forall k :: 0 <= k < |s'.slots| && s'.slots[k].inProgress ==> s.slots[k].inProgress;
  }

  lemma HeldTest(s: State, c: nat)
    requires InBounds(s) && Held(s) && c < |s.checks| && Tests(s.checks[c])
    ensures Held(StepTest(s, c))
  {
    var s' := StepTest(s, c);
    forall k | 0 <= k < |s'.slots| && s'.slots[k].inProgress
      ensures exists d :: 0 <= d < |s'.checks| && s'.checks[d].Holding(k)
    {
      var d :| 0 <= d < |s.checks| && s.checks[d].Holding(k);
      assert s'.checks[d].Holding(k);
    }
  }

  lemma HeldRun(s: State, c: nat)
    requires InBounds(s) && Held(s) && c < |s.checks|
    ensures Held(StepRun(s, c))
  {
    var s' := StepRun(s, c);
    forall k | 0 <= k < |s'.slots| && s'.slots[k].inProgress
      ensures exists d :: 0 <= d < |s'.checks| && s'.checks[d].Holding(k)
    {
      if s.slots[k].inProgress {
        var d :| 0 <= d < |s.checks| && s.checks[d].Holding(k);
        assert s'.checks[d].Holding(k);
      } else {
        assert s'.checks[c].Holding(k);
      }
    }
  }

  lemma HeldStep(s: State, act: Action)
    requires InBounds(s) && Held(s)
    ensures Held(Step(s, act))
  {
    match act
    case Continue => HeldVm(s);
    case Next(c) =>
      if c < |s.checks| { if Tests(s.checks[c]) { HeldTest(s, c); } else { HeldRun(s, c); } }
    case _ =>
      var s' := Step(s, act);
      assert s'.slots == s.slots;
      assert forall k, d :: 0 <= d < |s.checks| && s.checks[d].Holding(k) ==> s'.checks[d].Holding(k);
  }

  lemma {:induction false} HeldAlways(s: State, sched: seq<Action>)
    requires InBounds(s) && Held(s)
    ensures Held(Run(s, sched))
  {
    if sched != [] {
      var before := sched[..|sched| - 1];
      HeldAlways(s, before);
      HeldStep(Run(s, before), sched[|sched| - 1]);
    }
  }

  lemma DriveToNull(s: State, c: nat, i: nat) returns (sched: seq<Action>)
    requires InBounds(s) && c < |s.checks| && i < s.used && Ready(s.checks[c], i, s.slots[i])
    requires !s.checks[c].Running? && s.slots[i].tickee == 0
    ensures OnlyChecks(sched) && !AllProper(Run(s, sched).calls)
  {
    sched := Drive(s, c, i, 0);
    var calls := Run(s, sched).calls;
    assert !Proper(calls[|calls| - 1]);
  }

  /** A check that can still call the function of a disabled slot does, or whoever holds the slot does,
      or he lets go first. */
  lemma NullIsCalled(s: State, c: nat, i: nat) returns (sched: seq<Action>)
    requires InBounds(s) && Held(s) && c < |s.checks| && i < |s.slots|
    requires s.checks[c].Armed(i, s.slots[i]) && s.slots[i].tickee == 0
    ensures OnlyChecks(sched) && !AllProper(Run(s, sched).calls)
  {
    if s.slots[i].inProgress && ToRun(s.checks[c]) >= 4 {
      var h :| 0 <= h < |s.checks| && s.checks[h].Holding(i);
      if s.checks[h].Running? {
        var act := Next(h);
        OneAct(s, act);
        var rest := DriveToNull(Step(s, act), c, i);
        RunAppend(s, [act], rest);
        sched := [act] + rest;
      } else {
        sched := DriveToNull(s, h, i);
      }
    } else {
      sched := DriveToNull(s, c, i);
    }
  }

  /** No improper call can be reached without disabling a slot under an armed check. */
  ghost predicate StaysProper(s: State)
    requires InBounds(s)
  {
    forall sched :: Clean(s, sched) ==> AllProper(Run(s, sched).calls)
  }

  /** At the moment the VM thread disables a slot, improper calls become reachable if and only if some
      check can still call the slot's function. */
  lemma DisablingExactly(s: State)
    requires InBounds(s) && Whole(s) && Held(s) && s.vm.Disabling?
    ensures DisablesArmed(s, Continue) <==> !StaysProper(Step(s, Continue))
  {
    var s' := Step(s, Continue);
    if DisablesArmed(s, Continue) {
      var c :| 0 <= c < |s.checks| && s.checks[c].Armed(s.vm.i, s.slots[s.vm.i]);
      HeldStep(s, Continue);
      var sched := NullIsCalled(s', c, s.vm.i);
      ChecksAloneAreClean(s', sched);
      assert !(Clean(s', sched) ==> AllProper(Run(s', sched).calls));
    } else {
      WholeStep(s, Continue);
      forall sched | Clean(s', sched) ensures AllProper(Run(s', sched).calls) {
        WholeAlways(s', sched);
      }
    }
  }

  /** So it is in every run that has been clean so far. */
  lemma ProvisoIsExact(checks: nat, sched: seq<Action>)
    requires Clean(Start(checks), sched) && Run(Start(checks), sched).vm.Disabling?
    ensures var s := Run(Start(checks), sched);
            DisablesArmed(s, Continue) <==> !StaysProper(Step(s, Continue))
  {
    WholeAlways(Start(checks), sched);
    HeldAlways(Start(checks), sched);
    DisablingExactly(Run(Start(checks), sched));
  }

  // ----------------------------------------------------------- releasing a slot, exactly

  /** No untimely call can be reached carefully. */
  ghost predicate StaysTimely(s: State)
    requires InBounds(s)
  {
    forall sched :: Careful(s, sched) ==> AllTimely(Run(s, sched).calls)
  }

  lemma DriveToEarly(s: State, c: nat, k: nat) returns (sched: seq<Action>)
    requires InBounds(s) && c < |s.checks| && k < s.used && Stale(s.checks[c], k, s.slots[k])
    requires !s.slots[k].inProgress
    ensures Careful(s, sched) && !AllTimely(Run(s, sched).calls)
  {
    sched := Drive(s, c, k, 0);
    var calls := Run(s, sched).calls;
    assert !Timely(calls[|calls| - 1]);
  }

  /** At the moment a tickee returns and its slot is released, a call before its deadline becomes
      reachable if and only if some check stands before its swap having found an older deadline. */
  lemma ReleasingExactly(s: State, h: nat)
    requires InBounds(s) && Whole(s) && Punctual(s) && h < |s.checks| && s.checks[h].Running?
    ensures ReleasesUnder(s, Next(h)) <==> !StaysTimely(Step(s, Next(h)))
  {
    var s', k := Step(s, Next(h)), s.checks[h].i;
    if ReleasesUnder(s, Next(h)) {
      var c :| 0 <= c < |s.checks| && Stale(s.checks[c], k, s.slots[k]);
      var sched := DriveToEarly(s', c, k);
      assert !(Careful(s', sched) ==> AllTimely(Run(s', sched).calls));
    } else {
      WholeStep(s, Next(h));
      PunctualStep(s, Next(h));
      forall sched | Careful(s', sched) ensures AllTimely(Run(s', sched).calls) {
        PunctualAlways(s', sched);
      }
    }
  }

  /** So it is in every run that has been careful so far. */
  lemma TimelyProvisoIsExact(checks: nat, sched: seq<Action>, h: nat)
    requires Careful(Start(checks), sched) && h < checks && Run(Start(checks), sched).checks[h].Running?
    ensures var s := Run(Start(checks), sched);
            ReleasesUnder(s, Next(h)) <==> !StaysTimely(Step(s, Next(h)))
  {
    PunctualAlways(Start(checks), sched);
    ReleasingExactly(Run(Start(checks), sched), h);
  }

  // ------------------------------------------------------------------- runs from the start

  function ToIdle(vm: Vm): nat {
    match vm
    case Idle => 0
    case Counting(_, _) => 1
    case Enabling(_, _) => 2
    case ClearingProgress(_, _) => 3
    case WritingDeadline(_, _) => 4
    case WritingPeriod(_, _, _) => 5
    case Disabling(_, _, _) => 6
  }

  /** The first slot is registered, nobody runs its tickee, and the VM thread is done. */
  predicate Live(s: State) {
    && |s.slots| == NUM_TICKEES && s.vm.Idle? && s.used > 0
    && s.slots[0].tickee != 0 && !s.slots[0].inProgress && s.slots[0].period > 0
  }

  /** What a registration of the first slot has done when the VM thread is at a statement. */
  predicate Registering(s: State) {
    && |s.slots| == NUM_TICKEES && !s.vm.Idle? && s.vm.i == 0 && s.vm.r != 0
    && (s.vm.Disabling? || s.vm.WritingPeriod? ==> s.vm.period > 0)
    && (ToIdle(s.vm) <= 4 ==> s.slots[0].period > 0)
    && (ToIdle(s.vm) <= 3 ==> s.slots[0].deadline >= s.time)
    && (ToIdle(s.vm) <= 2 ==> !s.slots[0].inProgress)
    && (ToIdle(s.vm) <= 1 ==> s.slots[0].tickee != 0)
  }

  /** The VM thread is left to finish a registration. */
  lemma {:induction false} FinishVm(s: State) returns (sched: seq<Action>)
    requires InBounds(s) && Registering(s)
    ensures var s' := Run(s, sched); Live(s') && s'.checks == s.checks && s'.slots[0].deadline >= s'.time
    decreases ToIdle(s.vm)
  {
    var s1 := Step(s, Continue);
    OneAct(s, Continue);
    if s.vm.Counting? {
      sched := [Continue];
    } else {
      assert Registering(s1) && ToIdle(s1.vm) < ToIdle(s.vm);
      var rest := FinishVm(s1);
      RunAppend(s, [Continue], rest);
      sched := [Continue] + rest;
    }
  }

  lemma RegisterFirst(s: State) returns (sched: seq<Action>)
    requires InBounds(s) && s.vm.Idle?
    ensures var s' := Run(s, sched); Live(s') && s'.checks == s.checks && s'.slots[0].deadline >= s'.time
  {
    OneAct(s, Register(0, 1));
    var rest := FinishVm(Step(s, Register(0, 1)));
    RunAppend(s, [Register(0, 1)], rest);
    sched := [Register(0, 1)] + rest;
  }

  /** Check c is on its way to the first slot, whose deadline has just been reached. */
  predicate Beating(s: State, c: nat) {
    c < |s.checks| && s.checks[c] == AtLoop(0, s.time) && |s.slots| > 0 && s.time >= s.slots[0].deadline
  }

  /** Time passes until the first slot is due, and two heartbeats come. */
  lemma Heartbeat(s: State, c: nat) returns (sched: seq<Action>)
    requires InBounds(s) && Live(s) && c < |s.checks| && s.checks[c].Away?
    ensures var s' := Run(s, sched);
            && Live(s') && Beating(s', c) && s'.checks == s.checks[c := s'.checks[c]] && s'.slots == s.slots
            && (s.time <= s.slots[0].deadline ==> s'.time == s.slots[0].deadline)
  {
    var wait := if s.time < s.slots[0].deadline then s.slots[0].deadline - s.time else 0;
    OneAct(s, Pass(wait));
    OneAct(Step(s, Pass(wait)), Begin(c));
    RunAppend(s, [Pass(wait)], [Begin(c)]);
    sched := [Pass(wait)] + [Begin(c)];
  }

  ghost predicate Leads(s: State, s': State)
    requires InBounds(s)
  {
    exists sched :: Run(s, sched) == s'
  }

  lemma LeadsOn(s: State, s1: State, sched: seq<Action>)
    requires InBounds(s) && InBounds(s1) && Leads(s, s1)
    ensures Leads(s, Run(s1, sched))
  {
    var first :| Run(s, first) == s1;
    RunAppend(s, first, sched);
  }

  /** A run from the start to a registered first slot, just due, and a check on its way to it. */
  lemma FirstBeat(checks: nat) returns (s: State)
    requires checks >= 1
    ensures Leads(Start(checks), s) && InBounds(s) && |s.checks| == checks
    ensures Live(s) && Beating(s, 0) && s.time == s.slots[0].deadline
    ensures forall c :: 1 <= c < checks ==> s.checks[c].Away?
  {
    var s0 := Start(checks);
    assert Run(s0, []) == s0;
    var a := RegisterFirst(s0);
    LeadsOn(s0, s0, a);
    var s1 := Run(s0, a);
    var b := Heartbeat(s1, 0);
    LeadsOn(s0, s1, b);
    s := Run(s1, b);
  }

  /** One registration, one check that finds the deadline reached, one removal: null is called. */
  lemma NullCallFromStart(checks: nat)
    requires checks >= 1
    ensures exists s :: Leads(Start(checks), s) && !AllProper(s.calls)
  {
    var s0 := Start(checks);
    var s := FirstBeat(checks);
    var a := Drive(s, 0, 0, 4);
    LeadsOn(s0, s, a);
    var s1 := Run(s, a);
    var s2 := Step(s1, Remove(0));
    OneAct(s1, Remove(0));
    LeadsOn(s0, s1, [Remove(0)]);
    OneAct(s2, Continue);
    LeadsOn(s0, s2, [Continue]);
    var s3 := Step(s2, Continue);
    var b := DriveToNull(s3, 0, 0);
    LeadsOn(s0, s3, b);
  }

  /** One registration, two checks, one re-registration: the slot's tickee is run twice at once. */
  lemma DoubleRunFromStart(checks: nat)
    requires checks >= 2
    ensures exists s :: Leads(Start(checks), s) && TwiceRunning(s)
  {
    var s0 := Start(checks);
    var s := FirstBeat(checks);
    var a := Drive(s, 0, 0, 0);
    LeadsOn(s0, s, a);
    RunAgain(Run(s, a), s0);
  }

  /** Check 0 runs the first slot's tickee: a registration lets check 1 run it too. */
  lemma RunAgain(s: State, s0: State)
    requires InBounds(s) && InBounds(s0) && Leads(s0, s) && s.vm.Idle? && |s.checks| >= 2
    requires s.checks[0].Running? && s.checks[0].i == 0 && s.checks[1].Away?
    ensures exists s' :: Leads(s0, s') && TwiceRunning(s')
  {
    var b := RegisterFirst(s);
    LeadsOn(s0, s, b);
    var s2 := Run(s, b);
    var c := Heartbeat(s2, 1);
    LeadsOn(s0, s2, c);
    var s3 := Run(s2, c);
    var d := Drive(s3, 1, 0, 0);
    LeadsOn(s0, s3, d);
    var s4 := Run(s3, d);
    assert s4.checks[0].Running? && s4.checks[1].Running? && s4.checks[0].i == s4.checks[1].i;
    assert TwiceRunning(s4);
  }

  ghost predicate TwiceRunning(s: State) {
    exists c, d :: 0 <= c < d < |s.checks| && s.checks[c].Running? && s.checks[d].Running?
                   && s.checks[c].i == s.checks[d].i
  }

  /** A check from its advance to its release. */
  lemma CallAndRelease(s: State, c: nat)
    requires InBounds(s) && c < |s.checks| && s.checks[c].AtAdvance? && s.checks[c].i == 0 < s.used
    ensures var s', check := Run(s, [Next(c)] + [Next(c)] + [Next(c)]), s.checks[c];
            && s'.slots == s.slots[0 := Advanced(s.slots[0], check.clock, check.late).(inProgress := false)]
            && s'.checks == s.checks[c := AtLoop(1, check.clock)] && s'.used == s.used
  {
    var s1 := Step(s, Next(c));
    var s2 := Step(s1, Next(c));
    OneAct(s, Next(c));
    OneAct(s1, Next(c));
    OneAct(s2, Next(c));
    RunAppend(s, [Next(c)], [Next(c)]);
    RunAppend(s, [Next(c)] + [Next(c)], [Next(c)]);
  }

  /** One registration and two checks with the same clock: the second calls the tickee and returns
      between the first one's test and its swap, and the first calls it again before its deadline. */
  lemma EarlyCallFromStart(checks: nat)
    requires checks >= 2
    ensures exists s :: Leads(Start(checks), s) && !AllTimely(s.calls)
  {
    var s0 := Start(checks);
    var s := FirstBeat(checks);
    OneAct(s, Begin(1));
    LeadsOn(s0, s, [Begin(1)]);
    EarlyCall(Step(s, Begin(1)), s0);
  }

  lemma EarlyCall(s: State, s0: State)
    requires InBounds(s) && InBounds(s0) && Leads(s0, s) && Live(s) && s.time == s.slots[0].deadline
    requires Beating(s, 0) && Beating(s, 1)
    ensures exists s' :: Leads(s0, s') && !AllTimely(s'.calls)
  {
    var a := Drive(s, 0, 0, 4);
    LeadsOn(s0, s, a);
    var s1 := Run(s, a);
    var b := Drive(s1, 1, 0, 2);
    LeadsOn(s0, s1, b);
    EarlyCallAfter(Run(s1, b), s0);
  }

  /** Check 0 stands before its swap, check 1 at the advance of the same slot. */
  lemma EarlyCallAfter(s: State, s0: State)
    requires InBounds(s) && InBounds(s0) && Leads(s0, s) && |s.checks| >= 2 && 0 < s.used
    requires s.checks[0].AtSwap? && s.checks[0].i == 0 && s.checks[1].AtAdvance? && s.checks[1].i == 0
    requires s.checks[0].clock == s.checks[1].clock == s.slots[0].deadline && s.slots[0].period > 0
    ensures exists s' :: Leads(s0, s') && !AllTimely(s'.calls)
  {
    var c := [Next(1)] + [Next(1)] + [Next(1)];
    CallAndRelease(s, 1);
    LeadsOn(s0, s, c);
    var s1 := Run(s, c);
    var d := DriveToEarly(s1, 0, 0);
    LeadsOn(s0, s1, d);
  }

  // --------------------------------------------------------------- undisturbed, what it amounts to

  lemma LeadsOne(s: State, s1: State, act: Action)
    requires InBounds(s) && InBounds(s1) && Leads(s, s1)
    ensures Leads(s, Step(s1, act))
  {
    OneAct(s1, act);
    LeadsOn(s, s1, [act]);
  }

  lemma LeadsSelf(s: State)
    requires InBounds(s)
    ensures Leads(s, s)
  {
    assert Run(s, []) == s;
  }

  lemma LeadsTwo(s: State, act: Action)
    requires InBounds(s)
    ensures Leads(s, Step(Step(s, act), act))
  {
    LeadsSelf(s);
    LeadsOne(s, s, act);
    LeadsOne(s, Step(s, act), act);
  }

  lemma LeadsBoth(s: State, s1: State, s2: State)
    requires InBounds(s) && InBounds(s1) && Leads(s, s1) && Leads(s1, s2)
    ensures Leads(s, s2)
  {
    var sched :| Run(s1, sched) == s2;
    LeadsOn(s, s1, sched);
  }

  /** The first two tests: of the function and of inProgress. */
  lemma FirstTestsAre(s: State, c: nat)
    requires InBounds(s) && c < |s.checks| && s.checks[c].AtTickee?
    ensures var i, now := s.checks[c].i, s.checks[c].clock;
            Leads(s, Move(s, c, if s.slots[i].tickee != 0 && !s.slots[i].inProgress
                                then AtDeadline(i, now) else AtLoop(i + 1, now)))
  {
    if s.slots[s.checks[c].i].tickee != 0 {
      LeadsTwo(s, Next(c));
    } else {
      LeadsSelf(s);
      LeadsOne(s, s, Next(c));
    }
  }

  /** The last two: of the deadline, and the swap. */
  lemma LastTestsAre(s: State, c: nat)
    requires InBounds(s) && c < |s.checks| && s.checks[c].AtDeadline? && !s.slots[s.checks[c].i].inProgress
    ensures var i, now := s.checks[c].i, s.checks[c].clock;
            var slot := s.slots[i];
            Leads(s, if now >= slot.deadline
                     then SetSlot(Move(s, c, AtHiccup(i, now, slot.deadlineOf)), i, slot.(inProgress := true))
                     else Move(s, c, AtLoop(i + 1, now)))
  {
    if s.checks[c].clock >= s.slots[s.checks[c].i].deadline {
      LeadsTwo(s, Next(c));
    } else {
      LeadsSelf(s);
      LeadsOne(s, s, Next(c));
    }
  }

  /** The four tests of an undisturbed check: the slot is swapped or passed over, by its fields alone. */
  lemma TestsAre(s: State, c: nat)
    requires InBounds(s) && c < |s.checks| && s.checks[c].AtTickee?
    ensures var i, now := s.checks[c].i, s.checks[c].clock;
            var slot := s.slots[i];
            Leads(s, if slot.tickee != 0 && !slot.inProgress && now >= slot.deadline
                     then SetSlot(Move(s, c, AtHiccup(i, now, slot.deadlineOf)), i, slot.(inProgress := true))
                     else Move(s, c, AtLoop(i + 1, now)))
  {
    var i, now := s.checks[c].i, s.checks[c].clock;
    FirstTestsAre(s, c);
    if s.slots[i].tickee != 0 && !s.slots[i].inProgress {
      var s1 := Move(s, c, AtDeadline(i, now));
      LastTestsAre(s1, c);
      assert s1.checks[c := AtLoop(i + 1, now)] == s.checks[c := AtLoop(i + 1, now)];
      var at := AtHiccup(i, now, s.slots[i].deadlineOf);
      assert s1.checks[c := at] == s.checks[c := at];
      LeadsBoth(s, s1, if now >= s.slots[i].deadline
                       then SetSlot(Move(s1, c, at), i, s.slots[i].(inProgress := true))
                       else Move(s1, c, AtLoop(i + 1, now)));
    }
  }

  /** The advance: by the 10-second rule, from the deadline the slot has. */
  lemma AdvanceLeads(s: State, c: nat)
    requires InBounds(s) && c < |s.checks| && s.checks[c].AtHiccup?
    ensures var i, now := s.checks[c].i, s.checks[c].clock;
            var slot := s.slots[i];
            var late := slot.deadline + 10_000_000 < now;
            Leads(s, SetSlot(Move(s, c, AtCall(i, now, s.checks[c].found, slot.periodOf, slot.deadline)), i, slot.(
              deadline := if late then now + slot.period else slot.deadline + slot.period,
              deadlineOf := if late || slot.deadlineOf == slot.periodOf then slot.periodOf else 0)))
  {
    LeadsTwo(s, Next(c));
    var s1 := Step(s, Next(c));
    assert Step(s1, Next(c)).checks == s.checks[c := Step(s1, Next(c)).checks[c]];
  }

  /** The call, of what the slot then holds, and the release. */
  lemma CallLeads(s: State, c: nat)
    requires InBounds(s) && c < |s.checks| && s.checks[c].AtCall?
    ensures var check := s.checks[c];
            Leads(s, SetSlot(Move(s, c, AtLoop(check.i + 1, check.clock)), check.i,
                             s.slots[check.i].(inProgress := false)).(
              calls := s.calls + [Call(s.slots[check.i].tickee, check.found, check.added, check.clock, check.due)]))
  {
    LeadsTwo(s, Next(c));
    var s1 := Step(s, Next(c));
    assert Step(s1, Next(c)).checks == s.checks[c := Step(s1, Next(c)).checks[c]];
  }

  /** An undisturbed registration writes its own number, period and deadline, a period from now, to the
      slot, clears inProgress, makes the slot live, and counts it if it is new. */
  lemma RegistrationIs(s: State)
    requires InBounds(s) && s.vm.Disabling? && s.vm.r != 0
    ensures var i, r, p := s.vm.i, s.vm.r, s.vm.period;
            Leads(s, SetSlot(s, i, Slot(r, r, p, r, p + s.time, false)).(
              vm := Idle, used := if i == s.used then s.used + 1 else s.used))
  {
    var s1 := Step(s, Continue);
    var s2 := Step(s1, Continue);
    var s3 := Step(s2, Continue);
    LeadsSelf(s);
    LeadsOne(s, s, Continue);
    LeadsOne(s, s1, Continue);
    LeadsOne(s, s2, Continue);
    LastThree(s, s3);
  }

  lemma LastThree(s: State, s3: State)
    requires InBounds(s) && InBounds(s3) && Leads(s, s3) && s3.vm.ClearingProgress?
    ensures var i, r := s3.vm.i, s3.vm.r;
            Leads(s, SetSlot(s3, i, s3.slots[i].(tickee := r, inProgress := false)).(
              vm := Idle, used := if i == s3.used then s3.used + 1 else s3.used))
  {
    var s4 := Step(s3, Continue);
    var s5 := Step(s4, Continue);
    LeadsOne(s, s3, Continue);
    LeadsOne(s, s4, Continue);
    LeadsOne(s, s5, Continue);
  }

  /** A removal only disables the slot. */
  lemma RemovalIs(s: State)
    requires InBounds(s) && s.vm.Disabling? && s.vm.r == 0
    ensures Step(s, Continue) == SetSlot(s, s.vm.i, s.slots[s.vm.i].(tickee := 0)).(vm := Idle)
  {
  }
}
