/**
 The lock-free signalling protocol between any number of requesters, each inside
 signalSemaphoreWithIndex, and the one responder inside doSignalExternalSemaphores.

 Every shared-memory access of the two functions is one step. Memory is sequentially
 consistent. A run is a schedule: a sequence of actions saying whose statement comes next.
 */
module SignalProtocol {

  const MAX_TIDE := 0x7FFF_FFFF
  const MIN_TIDE := -1

  // The counters wrap at 2^16 where a 16-bit atomic add exists and at 2^32 elsewhere.
  type Modulus = m: int | m > 0 witness 0x1_0000

  /** One entry of the request table. `requests` and `responses` are the wrapping counters the
      program has; `made`, `answered` and `delivered` are unbounded history counters: atomic adds
      so far, increments of `responses` so far, and semaphore signals so far. */
  datatype Slot = Slot(requests: nat, responses: nat, made: nat, answered: nat, delivered: nat) {
    predicate Settled() { requests == responses }

    function Request(m: Modulus): Slot {
      this.(requests := (requests + 1) % m, made := made + 1)
    }

    function Deliver(): Slot { this.(delivered := delivered + 1) }

    function Respond(m: Modulus): Slot {
      this.(responses := (responses + 1) % m, answered := answered + 1)
    }
  }

  const ZERO_SLOT := Slot(0, 0, 0, 0, 0)

  /** A pair of tide marks; low == MAX_TIDE and high == MIN_TIDE is the empty interval. */
  datatype Tide = Tide(low: int, high: int) {
    predicate Covers(i: int) { low <= i <= high }

    /** Compare-and-swap of one mark: the swap is made iff the mark still is what was seen. */
    function SwapLow(seen: int, i: int): Tide { if low == seen then this.(low := i) else this }

    function SwapHigh(seen: int, i: int): Tide { if high == seen then this.(high := i) else this }

    function Widen(i: int): Tide {
      Tide(if low > i then i else low, if high < i then i else high)
    }
  }

  const EMPTY_TIDE := Tide(MAX_TIDE, MIN_TIDE)

  /** Where a requester is. `a` is the value of useTideA it read, `seen` the tide mark it read. */
  datatype Requester =
    | Resting
    | Adding(i: int)
    | ReadingUse(i: int)
    | ReadingLow(i: int, a: bool)
    | SwappingLow(i: int, a: bool, seen: int)
    | ReadingHigh(i: int, a: bool)
    | SwappingHigh(i: int, a: bool, seen: int)
    | RaisingFlag(i: int)
    | Forcing(i: int)
  {
    /** Between having read useTideA and having completed the last compare-and-swap. */
    predicate InWindow() { ReadingLow? || SwappingLow? || ReadingHigh? || SwappingHigh? }

    /** Counted, but the flag has not been raised yet. */
    predicate InFlight() { ReadingUse? || InWindow() || RaisingFlag? }
  }

  /** Where the responder is. */
  datatype Responder =
    | Away
    | TestingFlag
    | ClearingFlag
    | TestingUse
    | ResettingLow(a: bool)
    | ResettingHigh(a: bool)
    | Toggling(a: bool)
    | SnappingLow(a: bool)
    | SnappingHigh(a: bool, low: int)
    | Scanning(i: int, high: int)
    | Signalling(i: int, high: int)
    | Responding(i: int, high: int)
    | Rechecking
    | ForcingAgain
  {
    predicate ScansNext() {
      SnappingHigh? || Scanning? || Signalling? || Responding? || Rechecking? || ForcingAgain?
    }

    /** The flag has been taken and the tides in use are still to be toggled away. */
    predicate BeforeToggle() {
      ClearingFlag? || TestingUse? || ResettingLow? || ResettingHigh? || Toggling?
    }
  }

  /** `limit` is externalSemaphoreTableSize; `forced` says that an interrupt check is due. */
  datatype State = State(
    modulus: Modulus, limit: int,
    slots: seq<Slot>, check: bool, useA: bool, tideA: Tide, tideB: Tide, forced: bool,
    responder: Responder, requesters: seq<Requester>)
  {
    function TideOf(a: bool): Tide { if a then tideA else tideB }

    function InUse(): Tide { TideOf(useA) }
  }

  datatype Action =
    | Begin(t: nat, index: int)   // requester t calls signalSemaphoreWithIndex(index)
    | Request(t: nat)             // requester t executes its next statement
    | Check                       // an interrupt check calls doSignalExternalSemaphores
    | Respond                     // the responder executes its next statement

  function Start(size: nat, limit: int, m: Modulus, requesters: nat): State {
    State(m, limit, seq(size, _ => ZERO_SLOT), false, true, EMPTY_TIDE, EMPTY_TIDE, false,
          Away, seq(requesters, _ => Resting))
  }

  ghost predicate TideInBounds(tide: Tide, size: nat) {
    (tide.low == MAX_TIDE || 0 <= tide.low < size) && MIN_TIDE <= tide.high < size
  }

  ghost predicate RequesterInBounds(r: Requester, size: nat) {
    && (!r.Resting? ==> 0 <= r.i < size)
    && (r.SwappingLow? ==> r.i < r.seen)
    && (r.SwappingHigh? ==> r.seen < r.i)
  }

  ghost predicate ResponderInBounds(r: Responder, size: nat) {
    match r
    case SnappingHigh(_, low) => low >= 0
    case Scanning(i, high) => 0 <= i && high < size
    case Signalling(i, high) => 0 <= i <= high < size
    case Responding(i, high) => 0 <= i <= high < size
    case _ => true
  }

  /** Every index anyone is about to use, the responder's scan included, is a table index. */
  ghost predicate InBounds(s: State) {
    && |s.slots| <= MAX_TIDE
    && TideInBounds(s.tideA, |s.slots|)
    && TideInBounds(s.tideB, |s.slots|)
    && ResponderInBounds(s.responder, |s.slots|)
    && forall t :: 0 <= t < |s.requesters| ==> RequesterInBounds(s.requesters[t], |s.slots|)
  }

  function SetSlot(s: State, i: nat, slot: Slot): (s': State)
    requires InBounds(s) && i < |s.slots|
    ensures InBounds(s')
  {
    s.(slots := s.slots[i := slot])
  }

  function SetTide(s: State, a: bool, tide: Tide): (s': State)
    requires InBounds(s) && TideInBounds(tide, |s.slots|)
    ensures InBounds(s')
  {
    if a then s.(tideA := tide) else s.(tideB := tide)
  }

  function MoveRequester(s: State, t: nat, r: Requester): (s': State)
    requires InBounds(s) && t < |s.requesters| && RequesterInBounds(r, |s.slots|)
    ensures InBounds(s')
  {
    s.(requesters := s.requesters[t := r])
  }

  function MoveResponder(s: State, r: Responder): (s': State)
    requires InBounds(s) && ResponderInBounds(r, |s.slots|)
    ensures InBounds(s')
  {
    s.(responder := r)
  }

  /** Lines 163 to 188: the two compare-and-swap loops on the side read. */
  function StepMark(s: State, t: nat): (s': State)
    requires InBounds(s) && t < |s.requesters|
    ensures InBounds(s') && |s'.slots| == |s.slots| && |s'.requesters| == |s.requesters|
  {
    match s.requesters[t]
    case ReadingLow(i, a) =>
      var v := s.TideOf(a).low;
      MoveRequester(s, t, if v > i then SwappingLow(i, a, v) else ReadingHigh(i, a))
    case SwappingLow(i, a, seen) =>
      MoveRequester(SetTide(s, a, s.TideOf(a).SwapLow(seen, i)), t, ReadingLow(i, a))
    case ReadingHigh(i, a) =>
      var v := s.TideOf(a).high;
      MoveRequester(s, t, if v < i then SwappingHigh(i, a, v) else RaisingFlag(i))
    case SwappingHigh(i, a, seen) =>
      MoveRequester(SetTide(s, a, s.TideOf(a).SwapHigh(seen, i)), t, ReadingHigh(i, a))
    case _ => s
  }

  /** The next statement of requester t. */
  function StepRequester(s: State, t: nat): (s': State)
    requires InBounds(s) && t < |s.requesters|
    ensures InBounds(s') && |s'.slots| == |s.slots| && |s'.requesters| == |s.requesters|
  {
    match s.requesters[t]
    case Resting => s
    case Adding(i) =>
      MoveRequester(SetSlot(s, i, s.slots[i].Request(s.modulus)), t, ReadingUse(i))
    case ReadingUse(i) => MoveRequester(s, t, ReadingLow(i, s.useA))
    case RaisingFlag(i) => MoveRequester(s.(check := true), t, Forcing(i))
    case Forcing(i) => MoveRequester(s.(forced := true), t, Resting)
    case _ => StepMark(s, t)
  }

  /** Lines 211 to 234: take the flag, empty the idle tides, toggle, snapshot the other ones. */
  function StepFlip(s: State): (s': State)
    requires InBounds(s)
    ensures InBounds(s') && |s'.slots| == |s.slots| && s'.requesters == s.requesters
  {
    match s.responder
    case TestingFlag => MoveResponder(s, if s.check then ClearingFlag else Away)
    case ClearingFlag => MoveResponder(s.(check := false), TestingUse)
    case TestingUse => MoveResponder(s, ResettingLow(s.useA))
    case ResettingLow(a) =>
      MoveResponder(SetTide(s, !a, s.TideOf(!a).(low := MAX_TIDE)), ResettingHigh(a))
    case ResettingHigh(a) =>
      MoveResponder(SetTide(s, !a, s.TideOf(!a).(high := MIN_TIDE)), Toggling(a))
    case Toggling(a) => MoveResponder(s.(useA := !a), SnappingLow(a))
    case SnappingLow(a) => MoveResponder(s, SnappingHigh(a, s.TideOf(a).low))
    case _ => s
  }

  /** Lines 232 to 258: clamp and scan the snapshot, answering requests. */
  function StepScan(s: State): (s': State)
    requires InBounds(s)
    ensures InBounds(s') && |s'.slots| == |s.slots| && s'.requesters == s.requesters
  {
    match s.responder
    case SnappingHigh(a, low) =>
      var high := s.TideOf(a).high;
      MoveResponder(s, Scanning(low, if high >= s.limit then s.limit - 1 else high))
    case Scanning(i, high) =>
      MoveResponder(s,
        if i > high then Rechecking
        else if s.slots[i].Settled() then Scanning(i + 1, high)
        else Signalling(i, high))
    case Signalling(i, high) =>
      MoveResponder(SetSlot(s, i, s.slots[i].Deliver()), Responding(i, high))
    case Responding(i, high) =>
      MoveResponder(SetSlot(s, i, s.slots[i].Respond(s.modulus)), Scanning(i, high))
    case Rechecking => MoveResponder(s, if s.check then ForcingAgain else Away)
    case ForcingAgain => MoveResponder(s.(forced := true), Away)
    case _ => s
  }

  /** The next statement of the responder. */
  function StepResponder(s: State): (s': State)
    requires InBounds(s)
    ensures InBounds(s') && |s'.slots| == |s.slots| && s'.requesters == s.requesters
  {
    if s.responder.ScansNext() then StepScan(s) else StepFlip(s)
  }

  /** An action that is not possible in s leaves s as it is. An index outside the table
      is answered with zero and starts nothing. */
  function Step(s: State, act: Action): (s': State)
    requires InBounds(s)
    ensures InBounds(s') && |s'.slots| == |s.slots| && |s'.requesters| == |s.requesters|
  {
    match act
    case Begin(t, index) =>
      if t < |s.requesters| && s.requesters[t].Resting? && 0 <= index - 1 < |s.slots|
      then s.(requesters := s.requesters[t := Adding(index - 1)])
      else s
    case Request(t) => if t < |s.requesters| then StepRequester(s, t) else s
    case Check => if s.responder.Away? then s.(forced := false, responder := TestingFlag) else s
    case Respond => StepResponder(s)
  }

  /** The state after a whole schedule: in bounds whatever the interleaving. */
  function Run(s: State, sched: seq<Action>): (s': State)
    requires InBounds(s)
    ensures InBounds(s') && |s'.slots| == |s.slots| && |s'.requesters| == |s.requesters|
  {
    if sched == [] then s
    else Step(Run(s, sched[..|sched| - 1]), sched[|sched| - 1])
  }

  lemma {:induction false} RunAppend(s: State, first: seq<Action>, second: seq<Action>)
    requires InBounds(s)
    ensures Run(s, first + second) == Run(Run(s, first), second)
  {
    if second == [] {
      assert first + second == first;
    } else {
      var n := |second| - 1;
      RunAppend(s, first, second[..n]);
      assert (first + second)[..|first + second| - 1] == first + second[..n];
    }
  }
}
