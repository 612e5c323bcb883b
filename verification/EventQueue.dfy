/**
 What the event buffer of sqMacUIEvents.c is for, as values: a queue of at most `cap` events that
 keeps the latest, and drops a mouse event that repeats the one before it.
 */
module EventQueue {

  const EVENT_TYPE_MOUSE := 1
  const EVENT_TYPE_FULL_SCREEN_UPDATE := 98
  const EVENT_TYPE_POST_EVENT_PROCESSING := 99

  /** For a mouse event u1..u5 are x, y, buttons, modifiers and nrClicks. */
  datatype Event = Event(kind: int, timeStamp: int, u1: int, u2: int, u3: int, u4: int, u5: int, windowIndex: int)

  const ZERO := Event(0, 0, 0, 0, 0, 0, 0, 0)

  predicate Repeats(e: Event, last: Event) {
    e.u3 == last.u3 && e.u1 == last.u1 && e.u2 == last.u2 && e.u4 == last.u4
  }

  function Latest(s: seq<Event>, cap: nat): seq<Event> { if |s| <= cap then s else s[|s| - cap..] }

  lemma LatestPush(s: seq<Event>, e: Event, cap: nat)
    requires |s| <= cap && cap >= 1
    ensures Latest(s + [e], cap) == if |s| < cap then s + [e] else s[1..] + [e]
  {
  }

  /** A slot handed out and filled: the queue ends in the event put. */
  lemma LatestFilled(s: seq<Event>, stale: Event, e: Event, cap: nat)
    requires |s| <= cap && cap >= 1
    ensures var t := Latest(s + [stale], cap); |t| > 0 && t[|t| - 1 := e] == Latest(s + [e], cap)
  {
    LatestPush(s, stale, cap);
    LatestPush(s, e, cap);
  }

  /** Put and taken back. */
  lemma LatestUndone(s: seq<Event>, e: Event, cap: nat)
    requires |s| <= cap && cap >= 1
    ensures var t := Latest(s + [e], cap); |t| > 0 && t[..|t| - 1] == Latest(s, cap - 1)
  {
    LatestPush(s, e, cap);
  }

  /** lastMouse is the last mouse event, kept or not. */
  datatype Queue = Queue(events: seq<Event>, lastMouse: Event)

  datatype Call = Put(e: Event) | Mouse(e: Event, wheel: bool) | Take

  function Step(q: Queue, call: Call, cap: nat): Queue
    requires cap >= 1
  {
    match call
    case Put(e) => q.(events := Latest(q.events + [e], cap))
    case Mouse(e, wheel) =>
      Queue(if !wheel && Repeats(e, q.lastMouse) then Latest(q.events, cap - 1) else Latest(q.events + [e], cap), e)
    case Take => if q.events == [] then q else q.(events := q.events[1..])
  }

  function Run(calls: seq<Call>, cap: nat): (q: Queue)
    requires cap >= 1
    ensures |q.events| <= cap
  {
    if calls == [] then Queue([], ZERO) else Step(Run(calls[..|calls| - 1], cap), calls[|calls| - 1], cap)
  }

  /** The events the image got, in order. */
  function Taken(calls: seq<Call>, cap: nat): seq<Event>
    requires cap >= 1
  {
    if calls == [] then []
    else
      var before := calls[..|calls| - 1];
      var q := Run(before, cap).events;
      Taken(before, cap) + if calls[|calls| - 1].Take? && q != [] then [q[0]] else []
  }

  /** What one more call does. */
  lemma OneMoreCall(calls: seq<Call>, call: Call, cap: nat)
    requires cap >= 1
    ensures Run(calls + [call], cap) == Step(Run(calls, cap), call, cap)
    ensures var q := Run(calls, cap).events;
            Taken(calls + [call], cap) == Taken(calls, cap) + if call.Take? && q != [] then [q[0]] else []
  {
    assert (calls + [call])[..|calls + [call]| - 1] == calls;
  }

  /** How many events were recorded while the queue was full. */
  function Overflows(calls: seq<Call>, cap: nat): nat
    requires cap >= 1
  {
    if calls == [] then 0
    else
      var before := calls[..|calls| - 1];
      Overflows(before, cap) + if !calls[|calls| - 1].Take? && |Run(before, cap).events| == cap then 1 else 0
  }

  /** The last mouse event of the calls, the zero event before the first. */
  function LastMouse(calls: seq<Call>): Event {
    if calls == [] then ZERO
    else if calls[|calls| - 1].Mouse? then calls[|calls| - 1].e
    else LastMouse(calls[..|calls| - 1])
  }

  /** The input with each mouse event that repeats its predecessor removed, wheel events excepted. */
  function Kept(calls: seq<Call>): seq<Event> {
    if calls == [] then []
    else
      var before, call := calls[..|calls| - 1], calls[|calls| - 1];
      Kept(before) + match call
                     case Put(e) => [e]
                     case Mouse(e, wheel) => if !wheel && Repeats(e, LastMouse(before)) then [] else [e]
                     case Take => []
  }

  lemma {:induction false} OldIsLastMouse(calls: seq<Call>, cap: nat)
    requires cap >= 1
    ensures Run(calls, cap).lastMouse == LastMouse(calls)
  {
    if calls != [] { OldIsLastMouse(calls[..|calls| - 1], cap); }
  }

  /** Every event recorded while the queue is full costs exactly one event, a repeat included. */
  lemma {:induction false} EachOverflowLosesOne(calls: seq<Call>, cap: nat)
    requires cap >= 1
    ensures |Taken(calls, cap)| + |Run(calls, cap).events| + Overflows(calls, cap) == |Kept(calls)|
  {
    if calls != [] {
      EachOverflowLosesOne(calls[..|calls| - 1], cap);
      OldIsLastMouse(calls[..|calls| - 1], cap);
    }
  }

  lemma {:induction false} NothingLostOnTheWay(calls: seq<Call>, cap: nat)
    requires cap >= 1 && Overflows(calls, cap) == 0
    ensures Taken(calls, cap) + Run(calls, cap).events == Kept(calls)
  {
    if calls != [] {
      NothingLostOnTheWay(calls[..|calls| - 1], cap);
      OldIsLastMouse(calls[..|calls| - 1], cap);
    }
  }

  /** The image gets the input without its repeats, in order, exactly if no event was recorded while
      the queue was full. */
  lemma NothingLostIffNeverFull(calls: seq<Call>, cap: nat)
    requires cap >= 1
    ensures Taken(calls, cap) + Run(calls, cap).events == Kept(calls) <==> Overflows(calls, cap) == 0
  {
    EachOverflowLosesOne(calls, cap);
    if Overflows(calls, cap) == 0 { NothingLostOnTheWay(calls, cap); }
  }

  /** s is t with some events left out. */
  predicate Subsequence(s: seq<Event>, t: seq<Event>) {
    s == [] ||
    (t != [] && (Subsequence(s, t[..|t| - 1]) ||
                 (s[|s| - 1] == t[|t| - 1] && Subsequence(s[..|s| - 1], t[..|t| - 1]))))
  }

  lemma SubsequenceNext(s: seq<Event>, t: seq<Event>, e: Event)
    requires Subsequence(s, t)
    ensures Subsequence(s, t + [e]) && Subsequence(s + [e], t + [e])
  {
    assert (s + [e])[..|s + [e]| - 1] == s && (t + [e])[..|t + [e]| - 1] == t;
  }

  lemma {:induction false} SubsequenceWithout(a: seq<Event>, x: Event, b: seq<Event>, t: seq<Event>)
    requires Subsequence(a + [x] + b, t)
    ensures Subsequence(a + b, t)
  {
    var s, t' := a + [x] + b, t[..|t| - 1];
    if Subsequence(s, t') {
      SubsequenceWithout(a, x, b, t');
    } else if b == [] {
      assert s[..|s| - 1] == a && a + b == a;
    } else {
      var b' := b[..|b| - 1];
      assert s[..|s| - 1] == a + [x] + b';
      assert (a + b)[..|a + b| - 1] == a + b';
      SubsequenceWithout(a, x, b', t');
    }
  }

  /** However often the queue overflows, what the image gets and will get is in the order of the input
      and contains nothing else, and no event twice. */
  lemma {:induction false} OrderIsKept(calls: seq<Call>, cap: nat)
    requires cap >= 1
    ensures Subsequence(Taken(calls, cap) + Run(calls, cap).events, Kept(calls))
  {
    if calls != [] {
      var before, call := calls[..|calls| - 1], calls[|calls| - 1];
      OrderIsKept(before, cap);
      OldIsLastMouse(before, cap);
      var taken, q, kept := Taken(before, cap), Run(before, cap).events, Kept(before);
      if call.Take? {
        assert kept + [] == kept;
        assert Taken(calls, cap) + Run(calls, cap).events == taken + q;
      } else {
        AfterRecording(taken, q, kept, call.e, cap);
        assert kept + [] == kept && taken + [] == taken;
      }
    }
  }

  lemma AfterRecording(taken: seq<Event>, q: seq<Event>, kept: seq<Event>, e: Event, cap: nat)
    requires |q| <= cap && cap >= 1 && Subsequence(taken + q, kept)
    ensures Subsequence(taken + Latest(q, cap - 1), kept)
    ensures Subsequence(taken + Latest(q + [e], cap), kept + [e])
  {
    if |q| == cap {
      assert taken + q == taken + [q[0]] + q[1..];
      SubsequenceWithout(taken, q[0], q[1..], kept);
    }
    var left := Latest(q, cap - 1);
    SubsequenceNext(taken + left, kept, e);
    assert taken + Latest(q + [e], cap) == taken + left + [e];
  }
}
