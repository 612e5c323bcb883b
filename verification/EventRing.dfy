/** The event buffer of sqMacUIEvents.c: a ring of n slots holding at most n - 1 events. */
module EventRing {
  import opened EventQueue

  method Next(i: nat, n: nat) returns (j: nat)
    requires i < n
    ensures j == Wrap(i + 1, n) < n
  {
    j := (i + 1) % n;
  }

  function Wrap(i: nat, n: nat): nat { if i < n then i else i - n }

  function Length(get: nat, put: nat, n: nat): nat
    requires get < n && put < n
  {
    if get <= put then put - get else put + n - get
  }

  /** The events from get on, up to but not including put. */
  function Held(buffer: seq<Event>, get: nat, put: nat): (s: seq<Event>)
    requires get < |buffer| && put < |buffer|
    ensures |s| == Length(get, put, |buffer|)
  {
    if get <= put then buffer[get..put] else buffer[get..] + buffer[..put]
  }

  lemma HeldMore(buffer: seq<Event>, get: nat, put: nat)
    requires get < |buffer| && put < |buffer| && Wrap(put + 1, |buffer|) != get
    ensures Held(buffer, get, Wrap(put + 1, |buffer|)) == Held(buffer, get, put) + [buffer[put]]
  {
    if put + 1 == |buffer| {
      assert buffer[get..] == buffer[get..put] + [buffer[put]];
    } else if get <= put {
      assert buffer[get..put + 1] == buffer[get..put] + [buffer[put]];
    } else {
      assert buffer[..put + 1] == buffer[..put] + [buffer[put]];
    }
  }

  lemma HeldLess(buffer: seq<Event>, get: nat, put: nat)
    requires get < |buffer| && put < |buffer| && get != put
    ensures [buffer[get]] + Held(buffer, Wrap(get + 1, |buffer|), put) == Held(buffer, get, put)
  {
    if get < put {
      assert buffer[get..put] == [buffer[get]] + buffer[get + 1..put];
    } else if get + 1 < |buffer| {
      assert buffer[get..] == [buffer[get]] + buffer[get + 1..];
      assert ([buffer[get]] + buffer[get + 1..]) + buffer[..put] == [buffer[get]] + (buffer[get + 1..] + buffer[..put]);
    } else {
      assert buffer[get..] == [buffer[get]] && buffer[0..put] == buffer[..put];
    }
  }

  /** A store to the slot before put changes the newest event only. */
  lemma HeldFilled(buffer: seq<Event>, get: nat, slot: nat, e: Event)
    requires get < |buffer| && slot < |buffer| && Wrap(slot + 1, |buffer|) != get
    ensures Held(buffer[slot := e], get, Wrap(slot + 1, |buffer|)) == Held(buffer, get, slot) + [e]
    ensures Held(buffer, get, Wrap(slot + 1, |buffer|)) == Held(buffer, get, slot) + [buffer[slot]]
  {
    var filled := buffer[slot := e];
    assert filled[..slot] == buffer[..slot];
    if get <= slot {
      assert filled[get..slot] == buffer[get..slot];
    } else {
      assert filled[get..] == buffer[get..];
    }
    HeldMore(buffer, get, slot);
    HeldMore(filled, get, slot);
  }

  /** The put that overruns the oldest event. */
  lemma HeldOverrun(buffer: seq<Event>, get: nat)
    requires get < |buffer| && |buffer| >= 2
    ensures var put := if get == 0 then |buffer| - 1 else get - 1;
            Held(buffer, Wrap(get + 1, |buffer|), get) == Held(buffer, get, put)[1..] + [buffer[put]]
  {
    var put := if get == 0 then |buffer| - 1 else get - 1;
    HeldLess(buffer, get, put);
    HeldMore(buffer, Wrap(get + 1, |buffer|), put);
  }

  /** What others record: an event put as it is, a mouse report, or a mouse report under Carbon. */
  datatype Arrival =
    | Plain(e: Event)
    | Report(now: int, x: int, y: int, buttonState: int, windowActive: int)
    | CarbonReport(now: int, x: int, y: int, buttonState: int, windowActive: int, wheel: bool)

  /** The mouse event made of a report. The low three bits of buttonState are the buttons, the rest the
      modifiers; nrClicks is as the slot had it, or under Carbon zero. */
  function MouseEvent(now: int, x: int, y: int, buttonState: int, nrClicks: int, windowActive: int): Event {
    Event(EVENT_TYPE_MOUSE, now, x, y, buttonState % 8, buttonState / 8, nrClicks, windowActive)
  }

  /** x, y and the whole button state can be read off the event. */
  lemma ReportReadsBack(now: int, x: int, y: int, buttonState: int, nrClicks: int, windowActive: int)
    ensures var e := MouseEvent(now, x, y, buttonState, nrClicks, windowActive);
            && e.kind == 1 && e.timeStamp == now && e.u1 == x && e.u2 == y && e.windowIndex == windowActive
            && 0 <= e.u3 < 8 && e.u4 * 8 + e.u3 == buttonState && e.u5 == nrClicks
  {
  }

  /** Of two mouse reports in a row the second is dropped exactly if it is no wheel event and agrees with
      the first in x, y and the whole button state, whatever the times, windows and clicks. */
  lemma TwoReports(q: Queue, cap: nat, now: seq<int>, x: seq<int>, y: seq<int>, state: seq<int>,
                   clicks: seq<int>, window: seq<int>, wheel: bool)
    requires |now| == |x| == |y| == |state| == |clicks| == |window| == 2 && |q.events| + 2 <= cap
    ensures var e := MouseEvent(now[0], x[0], y[0], state[0], clicks[0], window[0]);
            var f := MouseEvent(now[1], x[1], y[1], state[1], clicks[1], window[1]);
            Step(Step(q, Mouse(e, true), cap), Mouse(f, wheel), cap).events ==
            if !wheel && x[0] == x[1] && y[0] == y[1] && state[0] == state[1]
            then q.events + [e] else q.events + [e] + [f]
  {
    ReportReadsBack(now[0], x[0], y[0], state[0], clicks[0], window[0]);
    ReportReadsBack(now[1], x[1], y[1], state[1], clicks[1], window[1]);
  }

  predicate Records(call: Call, a: Arrival) {
    match a
    case Plain(e) => call == Put(e)
    case Report(now, x, y, buttonState, windowActive) =>
      call.Mouse? && !call.wheel && call.e == MouseEvent(now, x, y, buttonState, call.e.u5, windowActive)
    case CarbonReport(now, x, y, buttonState, windowActive, wheel) =>
      call == Mouse(MouseEvent(now, x, y, buttonState, 0, windowActive), wheel)
  }

  ghost predicate RecordsAll(calls: seq<Call>, arrivals: seq<Arrival>) {
    |calls| == |arrivals| && forall k :: 0 <= k < |calls| ==> Records(calls[k], arrivals[k])
  }

  lemma RecordsOneMore(log: seq<Call>, calls: seq<Call>, call: Call, arrivals: seq<Arrival>, i: nat)
    requires i < |arrivals| && RecordsAll(calls, arrivals[..i]) && Records(call, arrivals[i])
    ensures log + calls + [call] == log + (calls + [call]) && RecordsAll(calls + [call], arrivals[..i + 1])
  {
  }

  function FirstOf(arrivals: seq<seq<Arrival>>): seq<Arrival> { if arrivals == [] then [] else arrivals[0] }
  function RestOf(arrivals: seq<seq<Arrival>>): seq<seq<Arrival>> { if arrivals == [] then [] else arrivals[1..] }

  /** The calls are n takes, and what arrives before the k-th of them is arrivals[k]. */
  ghost predicate Polls(calls: seq<Call>, arrivals: seq<seq<Arrival>>, n: nat) {
    if n == 0 then calls == []
    else
      var m := |FirstOf(arrivals)|;
      && m < |calls| && RecordsAll(calls[..m], FirstOf(arrivals)) && calls[m] == Take
      && Polls(calls[m + 1..], RestOf(arrivals), n - 1)
  }

  /** What a polling call did: it took the events handled and returned, one at a time, and before each
      of them others recorded what arrived. */
  ghost predicate Polled(log: seq<Call>, taken: seq<Event>, log': seq<Call>, taken': seq<Event>,
                         arrivals: seq<seq<Arrival>>, handled: seq<Event>, returned: seq<Event>) {
    && |log| <= |log'| && log'[..|log|] == log && Polls(log'[|log|..], arrivals, |handled| + 1)
    && taken' == taken + handled + returned
  }

  lemma PolledOnce(log: seq<Call>, taken: seq<Event>, first: seq<Call>,
                   arrivals: seq<seq<Arrival>>, returned: seq<Event>)
    requires RecordsAll(first, FirstOf(arrivals))
    ensures Polled(log, taken, log + first + [Take], taken + returned, arrivals, [], returned)
  {
    var log' := log + first + [Take];
    var calls := first + [Take];
    assert log'[|log|..] == calls && calls[..|first|] == first && calls[|first| + 1..] == [];
    assert Polls([], RestOf(arrivals), 0);
    assert taken + [] == taken;
  }

  lemma PolledMore(log: seq<Call>, taken: seq<Event>, first: seq<Call>, log': seq<Call>, taken': seq<Event>,
                   arrivals: seq<seq<Arrival>>, internal: Event, handled: seq<Event>, returned: seq<Event>)
    requires RecordsAll(first, FirstOf(arrivals))
    requires Polled(log + first + [Take], taken + [internal], log', taken', RestOf(arrivals), handled, returned)
    ensures Polled(log, taken, log', taken', arrivals, [internal] + handled, returned)
  {
    var log1 := log + first + [Take];
    var calls := log'[|log|..];
    assert log' == log1 + log'[|log1|..];
    assert calls == first + [Take] + log'[|log1|..];
    assert calls[..|first|] == first && calls[|first| + 1..] == log'[|log1|..];
    assert taken' == taken + ([internal] + handled) + returned;
  }

  class Ring {
    const eventBuffer: array<Event>
    var eventBufferGet: nat
    var eventBufferPut: nat
    var oldEvent: Event
    /** Everything recorded and taken so far, and the events taken. */
    ghost var log: seq<Call>
    ghost var taken: seq<Event>

    ghost predicate Shaped()
      reads this
    {
      eventBuffer.Length >= 2 && eventBufferGet < eventBuffer.Length && eventBufferPut < eventBuffer.Length
    }

    ghost predicate Valid()
      reads this, eventBuffer
    {
      Shaped() && View() == Run(log, Cap()) && taken == Taken(log, Cap())
    }

    ghost function Cap(): nat
      requires eventBuffer.Length >= 2
    {
      eventBuffer.Length - 1
    }

    ghost function Contents(): (s: seq<Event>)
      requires Shaped()
      reads this, eventBuffer
    {
      Held(eventBuffer[..], eventBufferGet, eventBufferPut)
    }

    ghost function View(): Queue
      requires Shaped()
      reads this, eventBuffer
    {
      Queue(Contents(), oldEvent)
    }

    constructor (maxEventBuffer: nat)
      requires maxEventBuffer >= 2
      ensures Valid() && fresh(eventBuffer) && eventBuffer.Length == maxEventBuffer && log == []
    {
      eventBuffer := new Event[maxEventBuffer](_ => ZERO);
      eventBufferGet, eventBufferPut, oldEvent, log, taken := 0, 0, ZERO, [], [];
    }

    /** Hands out the next slot, to be filled in by the caller: it is at once the newest event, with
        whatever the slot held. */
    method NextEventPut() returns (slot: nat)
      requires Shaped()
      modifies this`eventBufferGet, this`eventBufferPut
      ensures Shaped() && slot == old(eventBufferPut) && slot != eventBufferPut
      ensures Contents() == Latest(old(Contents()) + [eventBuffer[slot]], Cap())
      ensures Newest(slot)
    {
      slot := eventBufferPut;
      ghost var buffer, get, was := eventBuffer[..], eventBufferGet, Contents();
      eventBufferPut := Next(eventBufferPut, eventBuffer.Length);
      if eventBufferGet == eventBufferPut {
        eventBufferGet := Next(eventBufferGet, eventBuffer.Length);
        HeldOverrun(buffer, get);
      } else {
        HeldMore(buffer, get, slot);
      }
      LatestPush(was, buffer[slot], Cap());
    }

    /** The slot just handed out. */
    ghost predicate Newest(slot: nat)
      reads this
    {
      && slot < eventBuffer.Length && eventBufferPut == Wrap(slot + 1, eventBuffer.Length)
      && eventBufferGet != eventBufferPut
    }

    /** The caller's stores through the pointer. */
    method Fill(slot: nat, e: Event)
      requires Shaped() && Newest(slot)
      modifies eventBuffer
      ensures eventBuffer[..] == old(eventBuffer[..])[slot := e]
      ensures |old(Contents())| > 0 && Contents() == old(Contents())[|old(Contents())| - 1 := e]
    {
      HeldFilled(eventBuffer[..], eventBufferGet, slot, e);
      ghost var filled := eventBuffer[..][slot := e];
      eventBuffer[slot] := e;
      assert eventBuffer[..] == filled;
    }

    /** Takes the newest event back. On an empty ring it instead brings back n - 1 stale events. */
    method IgnoreLastEvent()
      requires Shaped()
      modifies this`eventBufferPut
      ensures Shaped()
      ensures old(Contents()) != [] ==> Contents() == old(Contents())[..|old(Contents())| - 1]
      ensures old(Contents()) == [] ==> |Contents()| == Cap()
    {
      var put: int := eventBufferPut - 1;
      if put < 0 {
        put := eventBuffer.Length - 1;
      }
      eventBufferPut := put;
    }

    /** Takes a slot and fills it in. */
    method PutEvent(e: Event) returns (slot: nat)
      requires Shaped()
      modifies this`eventBufferGet, this`eventBufferPut, eventBuffer
      ensures Shaped() && slot < eventBuffer.Length && eventBuffer[slot] == e
      ensures Contents() == Latest(old(Contents()) + [e], Cap())
    {
      ghost var was := Contents();
      slot := NextEventPut();
      LatestFilled(was, eventBuffer[slot], e, Cap());
      Fill(slot, e);
    }

    /** Put then ignore: nothing changes, unless the ring was full, when exactly the oldest goes. */
    method PutThenIgnore(e: Event)
      requires Shaped()
      modifies this`eventBufferGet, this`eventBufferPut, eventBuffer
      ensures Shaped()
      ensures Contents() == if |old(Contents())| < Cap() then old(Contents()) else old(Contents())[1..]
    {
      LatestUndone(Contents(), e, Cap());
      var slot := PutEvent(e);
      IgnoreLastEvent();
    }

    /** A recorder of anything but mouse events. */
    method Record(e: Event)
      requires Valid()
      modifies this`eventBufferGet, this`eventBufferPut, this`log, eventBuffer
      ensures Valid() && log == old(log) + [Put(e)] && taken == old(taken)
      ensures Contents() == (if |old(Contents())| < Cap() then old(Contents()) else old(Contents())[1..]) + [e]
    {
      OneMoreCall(log, Put(e), Cap());
      LatestPush(Contents(), e, Cap());
      var slot := PutEvent(e);
      log := log + [Put(e)];
    }

    /** Records a mouse event, then takes it back if it repeats the previous one. */
    method RecordMouseEvent(now: int, x: int, y: int, buttonState: int, windowActive: int) returns (ghost e: Event)
      requires Valid()
      modifies this, eventBuffer
      ensures Valid() && log == old(log) + [Mouse(e, false)] && taken == old(taken)
      ensures e == MouseEvent(now, x, y, buttonState, old(eventBuffer[eventBufferPut]).u5, windowActive)
    {
      ghost var was := Contents();
      var slot, evt := PutMouseEvent(now, x, y, buttonState, windowActive);
      DropRepeat(slot, evt, false, was);
      e := evt;
      OneMoreCall(log, Mouse(e, false), Cap());
      log := log + [Mouse(e, false)];
    }

    /** The same under Carbon: reserved1 is zeroed, and wheel events are never taken back. */
    method RecordMouseEventCarbon(now: int, x: int, y: int, buttonState: int, windowActive: int, wheel: bool)
      returns (ghost e: Event)
      requires Valid()
      modifies this, eventBuffer
      ensures Valid() && log == old(log) + [Mouse(e, wheel)] && taken == old(taken)
      ensures e == MouseEvent(now, x, y, buttonState, 0, windowActive)
    {
      ghost var was := Contents();
      var evt := Event(EVENT_TYPE_MOUSE, now, x, y, buttonState % 8, buttonState / 8, 0, windowActive);
      var slot := PutEvent(evt);
      DropRepeat(slot, evt, wheel, was);
      e := evt;
      OneMoreCall(log, Mouse(e, wheel), Cap());
      log := log + [Mouse(e, wheel)];
    }

    /** The stores to the slot of a mouse event. */
    method PutMouseEvent(now: int, x: int, y: int, buttonState: int, windowActive: int)
      returns (slot: nat, evt: Event)
      requires Shaped()
      modifies this`eventBufferGet, this`eventBufferPut, eventBuffer
      ensures Shaped() && slot < eventBuffer.Length && eventBuffer[slot] == evt
      ensures evt == MouseEvent(now, x, y, buttonState, old(eventBuffer[eventBufferPut]).u5, windowActive)
      ensures Contents() == Latest(old(Contents()) + [evt], Cap())
    {
      ghost var was := Contents();
      slot := NextEventPut();
      evt := eventBuffer[slot].(kind := EVENT_TYPE_MOUSE);
      evt := evt.(timeStamp := now);
      evt := evt.(u1 := x);
      evt := evt.(u2 := y);
      evt := evt.(u3 := buttonState % 8);
      evt := evt.(u4 := buttonState / 8);
      evt := evt.(windowIndex := windowActive);
      LatestFilled(was, eventBuffer[slot], evt, Cap());
      Fill(slot, evt);
    }

    /** The end of both mouse recorders: the event just put is taken back if it repeats the previous
        one and is no wheel event. */
    method DropRepeat(slot: nat, evt: Event, wheel: bool, ghost was: seq<Event>)
      requires Shaped() && slot < eventBuffer.Length && eventBuffer[slot] == evt
      requires |was| <= Cap() && Contents() == Latest(was + [evt], Cap())
      modifies this`eventBufferPut, this`oldEvent
      ensures Shaped() && View() == Step(Queue(was, old(oldEvent)), Mouse(evt, wheel), Cap())
    {
      if oldEvent.u3 == evt.u3 && oldEvent.u1 == evt.u1 && oldEvent.u2 == evt.u2 && oldEvent.u4 == evt.u4 && !wheel {
        LatestUndone(was, evt, Cap());
        IgnoreLastEvent();
      }
      oldEvent := eventBuffer[slot];
    }

    /** The copy out of the buffer and the advance. */
    method TakeFirst() returns (found: bool, evt: Event)
      requires Shaped()
      modifies this`eventBufferGet
      ensures Shaped()
      ensures old(Contents()) == (if found then [evt] else []) + Contents()
      ensures !found ==> Contents() == []
    {
      found, evt := false, ZERO;
      if eventBufferGet != eventBufferPut {
        HeldLess(eventBuffer[..], eventBufferGet, eventBufferPut);
        evt := eventBuffer[eventBufferGet];
        eventBufferGet := Next(eventBufferGet, eventBuffer.Length);
        found := true;
      }
    }

    /** The common part of both getters: takes the oldest event, if there is one. */
    method GetEvent() returns (found: bool, evt: Event)
      requires Valid()
      modifies this`eventBufferGet, this`log, this`taken
      ensures Valid() && log == old(log) + [Take]
      ensures found <==> old(Contents()) != []
      ensures found ==> evt == old(Contents())[0] && |Contents()| < |old(Contents())|
      ensures !found ==> Contents() == []
      ensures taken == old(taken) + if found then [evt] else []
    {
      OneMoreCall(log, Take, Cap());
      found, evt := TakeFirst();
      log, taken := log + [Take], taken + if found then [evt] else [];
    }

    /** One arrival. */
    method RecordArrival(a: Arrival) returns (ghost call: Call)
      requires Valid()
      modifies this, eventBuffer
      ensures Valid() && log == old(log) + [call] && Records(call, a)
      ensures taken == old(taken)
    {
      match a {
        case Plain(e) =>
          Record(e);
          call := Put(e);
        case Report(now, x, y, buttonState, windowActive) =>
          ghost var e := RecordMouseEvent(now, x, y, buttonState, windowActive);
          call := Mouse(e, false);
        case CarbonReport(now, x, y, buttonState, windowActive, wheel) =>
          ghost var e := RecordMouseEventCarbon(now, x, y, buttonState, windowActive, wheel);
          call := Mouse(e, wheel);
      }
    }

    /** What others record, in order. */
    method RecordAll(arrivals: seq<Arrival>) returns (ghost calls: seq<Call>)
      requires Valid()
      modifies this, eventBuffer
      ensures Valid() && log == old(log) + calls && RecordsAll(calls, arrivals)
      ensures taken == old(taken)
    {
      calls := [];
      for i := 0 to |arrivals|
        invariant Valid() && log == old(log) + calls && RecordsAll(calls, arrivals[..i])
        invariant taken == old(taken)
      {
        ghost var call := RecordArrival(arrivals[i]);
        RecordsOneMore(old(log), calls, call, arrivals, i);
        calls := calls + [call];
      }
      assert arrivals[..|arrivals|] == arrivals;
    }

    /** Without Carbon events: takes the oldest event, an empty ring first letting the system record
        what arrives. */
    method IoGetNextEvent(arrivals: seq<Arrival>) returns (found: bool, evt: Event, ghost calls: seq<Call>)
      requires Valid()
      modifies this, eventBuffer
      ensures Valid() && log == old(log) + calls + [Take]
      ensures RecordsAll(calls, if old(Contents()) == [] then arrivals else [])
      ensures found <==> Run(old(log) + calls, Cap()).events != []
      ensures taken == old(taken) + if found then [evt] else []
    {
      calls := [];
      if eventBufferGet == eventBufferPut {
        calls := RecordAll(arrivals);
      }
      assert log == old(log) + calls;
      found, evt := GetEvent();
    }

    /** With Carbon events: the internal events in front are handled, in order, and the first other
        one is returned. The ring is not locked between the events one call takes; arrivals[k] is
        what others record before the k-th. */
    method IoGetNextEventCarbon(arrivals: seq<seq<Arrival>>)
      returns (found: bool, evt: Event, ghost handled: seq<Event>)
      requires Valid()
      modifies this, eventBuffer
      ensures Valid()
      ensures Polled(old(log), old(taken), log, taken, arrivals, handled, if found then [evt] else [])
      ensures forall e :: e in handled ==> e.kind == 98 || e.kind == 99
      ensures if found then evt.kind != 98 && evt.kind != 99 else Contents() == []
      decreases |arrivals|, |Contents()|
    {
      ghost var first;
      found, evt, first := TakeAfter(FirstOf(arrivals));
      handled := [];
      if found && (evt.kind == EVENT_TYPE_FULL_SCREEN_UPDATE || evt.kind == EVENT_TYPE_POST_EVENT_PROCESSING) {
        ghost var internal := evt;
        found, evt, handled := IoGetNextEventCarbon(RestOf(arrivals));
        PolledMore(old(log), old(taken), first, log, taken, arrivals, internal, handled, if found then [evt] else []);
        handled := [internal] + handled;
      } else {
        PolledOnce(old(log), old(taken), first, arrivals, if found then [evt] else []);
      }
    }

    /** One turn of ioGetNextEvent, others having recorded what arrives. */
    method TakeAfter(arrivals: seq<Arrival>) returns (found: bool, evt: Event, ghost calls: seq<Call>)
      requires Valid()
      modifies this, eventBuffer
      ensures Valid() && log == old(log) + calls + [Take] && RecordsAll(calls, arrivals)
      ensures taken == old(taken) + if found then [evt] else []
      ensures !found ==> Contents() == []
      ensures found && arrivals == [] ==> |Contents()| < |old(Contents())|
    {
      calls := [];
      if arrivals != [] {
        calls := RecordAll(arrivals);
      }
      assert log == old(log) + calls;
      found, evt := GetEvent();
    }
  }
}
