/**
 What holds of every interleaving whatever: the wrapping counters abbreviate the true counts,
 signals never outnumber requests, and indices from the limit on are never signalled.
 */
module SignalAccounting {
  import opened SignalProtocol
  import opened Division

  /** Slot j against its history. While the responder is past its comparison for j, one more
      request than answered is known to exist. */
  ghost predicate SlotAccounted(slot: Slot, j: int, m: Modulus, r: Responder) {
    && slot.requests == slot.made % m
    && slot.responses == slot.answered % m
    && slot.answered <= slot.made
    && (r.Signalling? && r.i == j ==> slot.answered < slot.made && slot.delivered == slot.answered)
    && (r.Responding? && r.i == j ==> slot.answered < slot.made && slot.delivered == slot.answered + 1)
    && (!(r.Responding? && r.i == j) ==> slot.delivered == slot.answered)
  }

  ghost predicate Accounted(s: State) {
    forall j :: 0 <= j < |s.slots| ==> SlotAccounted(s.slots[j], j, s.modulus, s.responder)
  }

  lemma NextResidue(k: nat, m: Modulus)
    ensures (k + 1) % m == (k % m + 1) % m
  {
    var q, r := k / m, k % m;
    assert k == q * m + r;
    if r + 1 < m {
      DivisionUnique(k + 1, m, q, r + 1);
      DivisionUnique(r + 1, m, 0, r + 1);
    } else {
      assert (q + 1) * m == q * m + m;
      DivisionUnique(k + 1, m, q + 1, 0);
      DivisionUnique(r + 1, m, 1, 0);
    }
  }

  lemma AccountedRequester(s: State, t: nat)
    requires InBounds(s) && Accounted(s) && t < |s.requesters|
    ensures Accounted(StepRequester(s, t))
  {
    if s.requesters[t].Adding? {
      NextResidue(s.slots[s.requesters[t].i].made, s.modulus);
    } else {
      assert StepRequester(s, t).slots == s.slots;
    }
  }

  lemma AccountedFlip(s: State)
    requires InBounds(s) && Accounted(s) && !s.responder.ScansNext()
    ensures Accounted(StepFlip(s))
  {
    var s' := StepFlip(s);
    assert s'.slots == s.slots && s'.modulus == s.modulus;
    assert !s'.responder.Signalling? && !s'.responder.Responding?;
  }

  lemma AccountedScan(s: State)
    requires InBounds(s) && Accounted(s) && s.responder.ScansNext()
    ensures Accounted(StepScan(s))
  {
    match s.responder
    case Responding(i, _) => NextResidue(s.slots[i].answered, s.modulus);
    case Scanning(i, high) =>
      assert i <= high ==> SlotAccounted(s.slots[i], i, s.modulus, s.responder);
    case _ =>
  }

  lemma AccountedStep(s: State, act: Action)
    requires InBounds(s) && Accounted(s)
    ensures Accounted(Step(s, act))
  {
    match act
    case Request(t) => if t < |s.requesters| { AccountedRequester(s, t); }
    case Respond => if s.responder.ScansNext() { AccountedScan(s); } else { AccountedFlip(s); }
    case _ =>
  }

  lemma {:induction false} AccountedRun(s: State, sched: seq<Action>)
    requires InBounds(s) && Accounted(s)
    ensures Accounted(Run(s, sched))
  {
    if sched != [] {
      var before := sched[..|sched| - 1];
      AccountedRun(s, before);
      AccountedStep(Run(s, before), sched[|sched| - 1]);
    }
  }

  /** Never over-signals: whatever the interleaving and however often the counters wrap, the
      signals delivered for an index never outnumber the requests made for it. */
  lemma NeverOverSignals(size: nat, limit: int, m: Modulus, requesters: nat, sched: seq<Action>, i: nat)
    requires size <= MAX_TIDE && i < size
    ensures var slot := Run(Start(size, limit, m, requesters), sched).slots[i];
            slot.delivered <= slot.made
  {
    AccountedRun(Start(size, limit, m, requesters), sched);
  }

  /** Equal counters mean that a whole number of counter periods is unanswered, so they mean
      "all answered" exactly when the backlog stayed below the period. */
  lemma SettledMeansAnswered(slot: Slot, j: int, m: Modulus, r: Responder)
    requires SlotAccounted(slot, j, m, r) && slot.Settled()
    ensures (slot.made - slot.answered) % m == 0
    ensures slot.made == slot.answered <==> slot.made - slot.answered < m
  {
    var q := slot.made / m - slot.answered / m;
    assert slot.made - slot.answered == q * m;
    DivisionUnique(slot.made - slot.answered, m, q, 0);
    Multiple(q, m);
  }

  /** The responder's scan ends below the limit, and slot i at or above it was never signalled. */
  ghost predicate BeyondScan(s: State, i: int) {
    && 0 <= i < |s.slots| && s.limit <= i && s.slots[i].delivered == 0
    && match s.responder
       case Scanning(_, high) => high < s.limit
       case Signalling(j, high) => j <= high < s.limit
       case Responding(j, high) => j <= high < s.limit
       case _ => true
  }

  lemma BeyondScanRequester(s: State, t: nat, i: int)
    requires InBounds(s) && BeyondScan(s, i) && t < |s.requesters|
    ensures BeyondScan(StepRequester(s, t), i)
  {
    var s' := StepRequester(s, t);
    assert s'.limit == s.limit && s'.responder == s.responder && s'.slots[i].delivered == s.slots[i].delivered;
  }

  lemma BeyondScanResponder(s: State, i: int)
    requires InBounds(s) && BeyondScan(s, i)
    ensures BeyondScan(StepResponder(s), i)
  {
  }

  lemma BeyondScanStep(s: State, act: Action, i: int)
    requires InBounds(s) && BeyondScan(s, i)
    ensures BeyondScan(Step(s, act), i)
  {
    match act
    case Request(t) => if t < |s.requesters| { BeyondScanRequester(s, t, i); }
    case Respond => BeyondScanResponder(s, i);
    case _ =>
  }

  lemma {:induction false} BeyondScanRun(s: State, sched: seq<Action>, i: int)
    requires InBounds(s) && BeyondScan(s, i)
    ensures BeyondScan(Run(s, sched), i)
  {
    if sched != [] {
      var before := sched[..|sched| - 1];
      BeyondScanRun(s, before, i);
      BeyondScanStep(Run(s, before), sched[|sched| - 1], i);
    }
  }

  /** Why the results on delivery speak of indices below the limit only: from the limit on, no
      schedule ever delivers a signal. */
  lemma NothingBeyondTheLimit(size: nat, limit: int, m: Modulus, requesters: nat, sched: seq<Action>, i: nat)
    requires size <= MAX_TIDE && i < size && limit <= i
    ensures Run(Start(size, limit, m, requesters), sched).slots[i].delivered == 0
  {
    BeyondScanRun(Start(size, limit, m, requesters), sched, i);
  }
}
