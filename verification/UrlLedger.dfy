/**
 The URL requests of the browser plugin, as values: the table of reused slots, the number handed to
 the network layer for each request, and a ledger in which requests are never forgotten. The table
 is proved to show the ledger over every run since its initialisation.
 */
module UrlLedger {

  const URL_REQUEST_COUNT := 100
  const MAX_STRING_LENGTH := 1000
  /** Ids from here on do not fit beside the handle in a 32-bit notifyData. */
  const ID_LIMIT := 0x80_0000
  const ID_SPAN := 0x100_0000

  datatype Status = Idle | InProgress | Failed | Succeeded

  /** A null file name is NoName; a null buffer is 0. */
  datatype Name = NoName | Name(text: string)
  datatype Record = Record(id: int, status: Status, semaIndex: int, fileName: string, buffer: nat)

  datatype Note = Completion(fileName: Name) | Failure

  const BLANK := Record(0, Idle, 0, "", 0)

  // ------------------------------------------------------------------------- notifyData

  /** The value of x as a 32-bit int. */
  function Wrap32(x: int): int { (x + 0x8000_0000) % 0x1_0000_0000 - 0x8000_0000 }

  function NotifyData(id: int, handle: nat): int { Wrap32(Wrap32(id * 256) + handle) }

  /** notifyData & 0xFF and the arithmetic shift notifyData >> 8. */
  function HandleOf(notifyData: int): nat { notifyData % 256 }
  function IdOf(notifyData: int): int { notifyData / 256 }

  /** What comes out of notifyData: the handle always, the id as a signed 24-bit number. */
  lemma Unpacked(id: nat, handle: nat)
    requires handle < 256
    ensures HandleOf(NotifyData(id, handle)) == handle
    ensures IdOf(NotifyData(id, handle)) == (id + ID_LIMIT) % ID_SPAN - ID_LIMIT
  {
    var q, r := (id + ID_LIMIT) / ID_SPAN, (id + ID_LIMIT) % ID_SPAN;
    assert id * 256 + 0x8000_0000 == q * 0x1_0000_0000 + r * 256;
    assert Wrap32(id * 256) == r * 256 - 0x8000_0000;
    assert NotifyData(id, handle) == (r - ID_LIMIT) * 256 + handle;
  }

  /** Packing is lossless exactly for ids below 2^23. */
  lemma UnpackedExactly(id: nat, handle: nat)
    requires handle < 256
    ensures IdOf(NotifyData(id, handle)) == id <==> id < ID_LIMIT
  {
    Unpacked(id, handle);
  }

  /** Below 2^24, what comes out is the id of another request or of a blank slot for no id. */
  lemma UnpackedIsOwn(id: nat, handle: nat, other: nat)
    requires handle < 256 && 0 < id < ID_SPAN && other < ID_SPAN
    ensures IdOf(NotifyData(id, handle)) == other <==> id == other < ID_LIMIT
  {
    Unpacked(id, handle);
  }

  // -------------------------------------------------------------------------- the table

  function FirstIdle(slots: seq<Record>, i: nat): nat
    requires i <= |slots|
    decreases |slots| - i
  {
    if i == |slots| || slots[i].status.Idle? then i else FirstIdle(slots, i + 1)
  }

  function Created(slots: seq<Record>, id: int, semaIndex: int): seq<Record> {
    var h := FirstIdle(slots, 0);
    if h < |slots| then slots[h := Record(id, InProgress, semaIndex, slots[h].fileName, 0)] else slots
  }

  predicate Matches(slots: seq<Record>, notifyData: int) {
    HandleOf(notifyData) < |slots| && slots[HandleOf(notifyData)].id == IdOf(notifyData)
  }

  /** strncpy into the fileName field. */
  function Clip(name: string): string { if |name| <= MAX_STRING_LENGTH then name else name[..MAX_STRING_LENGTH] }

  /** What is kept of a name begins it, and is all of it up to 1000 characters. */
  lemma ClipKeeps(name: string)
    ensures Clip(name) <= name && |Clip(name)| == if |name| <= 1000 then |name| else 1000
    ensures |name| <= 1000 ==> Clip(name) == name
  {
  }

  function Noted(r: Record, note: Note): Record {
    match note
    case Completion(name) =>
      Record(r.id, if r.status.Succeeded? || r.status.Failed? then r.status else Succeeded, r.semaIndex,
             if name.Name? then Clip(name.text) else r.fileName, 0)
    case Failure => Record(r.id, if r.status.Succeeded? then Succeeded else Failed, r.semaIndex, r.fileName, 0)
  }

  function Notified(slots: seq<Record>, notifyData: int, note: Note): seq<Record> {
    if Matches(slots, notifyData)
    then slots[HandleOf(notifyData) := Noted(slots[HandleOf(notifyData)], note)] else slots
  }

  /** A notification signals the request's semaphore unless the request has already succeeded. */
  predicate Signals(slots: seq<Record>, notifyData: int) {
    Matches(slots, notifyData) && !slots[HandleOf(notifyData)].status.Succeeded?
  }

  function Destroyed(slots: seq<Record>, handle: int): seq<Record> {
    if 0 <= handle < |slots| then slots[handle := BLANK] else slots
  }

  // --------------------------------------------------------------------------- the runs

  /** The table, its next id, and the notifyData given to the network for each request, in order. */
  datatype System = System(slots: seq<Record>, nextRequestID: nat, issued: seq<int>)

  /** The network may report on request number `request` whenever it likes, and repeatedly. */
  datatype Call = Create(semaIndex: int) | Notify(request: nat, note: Note) | Destroy(handle: int)

  function Initial(): System { System(seq(URL_REQUEST_COUNT, _ => BLANK), 1, []) }

  function Step(s: System, call: Call): System {
    match call
    case Create(semaIndex) =>
      var h := FirstIdle(s.slots, 0);
      if h < |s.slots|
      then System(Created(s.slots, s.nextRequestID, semaIndex), s.nextRequestID + 1,
                  s.issued + [NotifyData(s.nextRequestID, h)])
      else s
    case Notify(k, note) => if k < |s.issued| then s.(slots := Notified(s.slots, s.issued[k], note)) else s
    case Destroy(handle) => s.(slots := Destroyed(s.slots, handle))
  }

  function Run(calls: seq<Call>): System {
    if calls == [] then Initial() else Step(Run(calls[..|calls| - 1]), calls[|calls| - 1])
  }

  // ------------------------------------------------------------------------- the ledger

  /** Request number k, whose id is k + 1: the notes it heard while live. */
  datatype Request = Request(handle: nat, semaIndex: int, notes: seq<Note>, live: bool)

  /** The first note decides the outcome; the last file name given is kept. */
  function StatusOf(notes: seq<Note>): Status {
    if notes == [] then InProgress else if notes[0].Completion? then Succeeded else Failed
  }

  function FileOf(notes: seq<Note>): string {
    if notes == [] then ""
    else
      var last := notes[|notes| - 1];
      if last.Completion? && last.fileName.Name? then Clip(last.fileName.text) else FileOf(notes[..|notes| - 1])
  }

  predicate Taken(l: seq<Request>, h: nat) { exists k :: 0 <= k < |l| && l[k].live && l[k].handle == h }

  /** The lowest handle from h on that no live request has. */
  function FreeHandle(l: seq<Request>, h: nat): nat
    decreases URL_REQUEST_COUNT - h
  {
    if h < URL_REQUEST_COUNT && Taken(l, h) then FreeHandle(l, h + 1) else h
  }

  /** A request hears its notifications while it is live, if its id is below 2^23. */
  predicate Hears(l: seq<Request>, k: nat) { k < |l| && l[k].live && k + 1 < ID_LIMIT }

  function LedgerStep(l: seq<Request>, call: Call): seq<Request> {
    match call
    case Create(semaIndex) =>
      var h := FreeHandle(l, 0);
      if h < URL_REQUEST_COUNT then l + [Request(h, semaIndex, [], true)] else l
    case Notify(k, note) => if Hears(l, k) then l[k := l[k].(notes := l[k].notes + [note])] else l
    case Destroy(handle) => Close(l, handle)
  }

  function Close(l: seq<Request>, handle: int): (r: seq<Request>)
    ensures |r| == |l|
    ensures forall k :: 0 <= k < |l| ==> r[k] == l[k].(live := l[k].live && l[k].handle != handle)
  {
    if l == [] then []
    else
      var last := l[|l| - 1];
      Close(l[..|l| - 1], handle) + [last.(live := last.live && last.handle != handle)]
  }

  function Ledger(calls: seq<Call>): seq<Request> {
    if calls == [] then [] else LedgerStep(Ledger(calls[..|calls| - 1]), calls[|calls| - 1])
  }

  function RecordOf(k: nat, r: Request): Record {
    Record(k + 1, StatusOf(r.notes), r.semaIndex, FileOf(r.notes), 0)
  }

  // --------------------------------------------------------------------- the refinement

  /** Each live request is in its slot, and every other slot is blank. */
  ghost predicate Shows(s: System, l: seq<Request>) {
    && |s.slots| == URL_REQUEST_COUNT && |s.issued| == |l| && s.nextRequestID == |l| + 1
    && (forall k :: 0 <= k < |l| ==> l[k].handle < URL_REQUEST_COUNT && s.issued[k] == NotifyData(k + 1, l[k].handle))
    && (forall k :: 0 <= k < |l| && l[k].live ==> s.slots[l[k].handle] == RecordOf(k, l[k]))
    && (forall h :: 0 <= h < URL_REQUEST_COUNT ==> Taken(l, h) || s.slots[h] == BLANK)
  }

  /** A slot is idle iff no live request has its handle. */
  lemma IdleIsFree(s: System, l: seq<Request>, h: nat)
    requires Shows(s, l) && h < URL_REQUEST_COUNT
    ensures s.slots[h].status.Idle? <==> !Taken(l, h)
  {
    if Taken(l, h) {
      var k :| 0 <= k < |l| && l[k].live && l[k].handle == h;
      assert s.slots[h] == RecordOf(k, l[k]);
    }
  }

  lemma {:induction false} FirstIdleIsFree(s: System, l: seq<Request>, h: nat)
    requires Shows(s, l) && h <= URL_REQUEST_COUNT
    ensures FirstIdle(s.slots, h) == FreeHandle(l, h)
    ensures FreeHandle(l, h) < URL_REQUEST_COUNT ==> !Taken(l, FreeHandle(l, h))
    decreases URL_REQUEST_COUNT - h
  {
    if h < URL_REQUEST_COUNT {
      IdleIsFree(s, l, h);
      if Taken(l, h) { FirstIdleIsFree(s, l, h + 1); }
    }
  }

  lemma SlotIds(s: System, l: seq<Request>, h: nat)
    requires Shows(s, l) && h < URL_REQUEST_COUNT
    ensures 0 <= s.slots[h].id <= |l|
  {
    if Taken(l, h) {
      var k :| 0 <= k < |l| && l[k].live && l[k].handle == h;
      assert s.slots[h] == RecordOf(k, l[k]);
    }
  }

  /** A notification finds its own live request if the id fits, and nothing else: it never reaches
      the request that has since been given the slot. */
  lemma FindsOnlyItsOwn(s: System, l: seq<Request>, k: nat)
    requires Shows(s, l) && k < |l| < ID_SPAN
    ensures HandleOf(s.issued[k]) == l[k].handle
    ensures Matches(s.slots, s.issued[k]) <==> Hears(l, k)
  {
    SlotIds(s, l, l[k].handle);
    var h, n := l[k].handle, s.issued[k];
    assert HandleOf(n) == h by { Unpacked(k + 1, h); }
    UnpackedIsOwn(k + 1, h, s.slots[h].id);
    if Taken(l, h) {
      var j :| 0 <= j < |l| && l[j].live && l[j].handle == h;
      assert s.slots[h].id == j + 1;
    }
  }

  lemma CreateShows(s: System, l: seq<Request>, semaIndex: int)
    requires Shows(s, l)
    ensures Shows(Step(s, Create(semaIndex)), LedgerStep(l, Create(semaIndex)))
  {
    FirstIdleIsFree(s, l, 0);
    var h := FreeHandle(l, 0);
    if h < URL_REQUEST_COUNT {
      var s', l' := Step(s, Create(semaIndex)), LedgerStep(l, Create(semaIndex));
      assert s.slots[h] == BLANK;
      assert s'.slots[h] == RecordOf(|l|, l'[|l|]);
      forall j | 0 <= j < URL_REQUEST_COUNT ensures Taken(l', j) || s'.slots[j] == BLANK {
        if j == h {
          assert l'[|l|].handle == h;
        } else if Taken(l, j) {
          var k :| 0 <= k < |l| && l[k].live && l[k].handle == j;
          assert l'[k] == l[k];
        }
      }
    }
  }

  lemma HeardRecord(k: nat, r: Request, note: Note)
    ensures Noted(RecordOf(k, r), note) == RecordOf(k, r.(notes := r.notes + [note]))
  {
    assert (r.notes + [note])[..|r.notes|] == r.notes;
  }

  lemma HeardShows(s: System, l: seq<Request>, s': System, l': seq<Request>, k: nat)
    requires Shows(s, l) && k < |l| == |l'| && l[k].live
    requires l' == l[k := l[k].(notes := l'[k].notes)]
    requires s' == s.(slots := s.slots[l[k].handle := RecordOf(k, l'[k])])
    ensures Shows(s', l')
  {
    forall j | 0 <= j < |l| && l[j].live ensures s'.slots[l[j].handle] == RecordOf(j, l'[j]) {
      assert s.slots[l[j].handle].id == j + 1;
    }
    forall h | 0 <= h < URL_REQUEST_COUNT ensures Taken(l', h) || s'.slots[h] == BLANK {
      if Taken(l, h) {
        var j :| 0 <= j < |l| && l[j].live && l[j].handle == h;
        assert l'[j].live && l'[j].handle == h;
      }
    }
  }

  lemma NotifyShows(s: System, l: seq<Request>, k: nat, note: Note)
    requires Shows(s, l) && |l| < ID_SPAN
    ensures Shows(Step(s, Notify(k, note)), LedgerStep(l, Notify(k, note)))
  {
    if k < |l| {
      FindsOnlyItsOwn(s, l, k);
      if Hears(l, k) {
        HeardRecord(k, l[k], note);
        HeardShows(s, l, Step(s, Notify(k, note)), LedgerStep(l, Notify(k, note)), k);
      }
    }
  }

  lemma DestroyShows(s: System, l: seq<Request>, handle: int)
    requires Shows(s, l)
    ensures Shows(Step(s, Destroy(handle)), LedgerStep(l, Destroy(handle)))
  {
    var s', l' := Step(s, Destroy(handle)), Close(l, handle);
    forall h | 0 <= h < URL_REQUEST_COUNT ensures Taken(l', h) || s'.slots[h] == BLANK {
      if h != handle && Taken(l, h) {
        var k :| 0 <= k < |l| && l[k].live && l[k].handle == h;
        assert l'[k].live && l'[k].handle == h;
      }
    }
  }

  lemma LedgerOnlyGrows(l: seq<Request>, call: Call)
    ensures |l| <= |LedgerStep(l, call)|
  {
  }

  /** Over every run since initialisation the table shows the ledger. The bound is on requests, not
      on calls: no request with id 2^24 or more. */
  lemma {:induction false} TableShowsLedger(calls: seq<Call>)
    requires |Ledger(calls)| < ID_SPAN
    ensures Shows(Run(calls), Ledger(calls))
  {
    if calls != [] {
      var before, call := calls[..|calls| - 1], calls[|calls| - 1];
      LedgerOnlyGrows(Ledger(before), call);
      TableShowsLedger(before);
      match call {
        case Create(semaIndex) => CreateShows(Run(before), Ledger(before), semaIndex);
        case Notify(k, note) => NotifyShows(Run(before), Ledger(before), k, note);
        case Destroy(handle) => DestroyShows(Run(before), Ledger(before), handle);
      }
    }
  }

  // ----------------------------------------------------------------------- consequences

  /** A completion or failure that arrives after its request was destroyed changes nothing and
      signals nothing, whoever has the slot now. */
  lemma LateNotificationIgnored(calls: seq<Call>, k: nat, note: Note)
    requires |Ledger(calls)| < ID_SPAN && k < |Ledger(calls)| && !Ledger(calls)[k].live
    ensures Shows(Run(calls), Ledger(calls))
    ensures Step(Run(calls), Notify(k, note)) == Run(calls)
    ensures !Signals(Run(calls).slots, Run(calls).issued[k])
  {
    TableShowsLedger(calls);
    FindsOnlyItsOwn(Run(calls), Ledger(calls), k);
  }

  /** n requests, each destroyed before the next. */
  function Spent(n: nat): seq<Call> {
    if n == 0 then [] else Spent(n - 1) + [Create(0)] + [Destroy(0)]
  }

  /** Every slot is blank, and n requests are over that all had slot 0. */
  ghost predicate AllSpent(s: System, l: seq<Request>, n: nat) {
    && s.slots == Initial().slots && s.nextRequestID == n + 1 && |s.issued| == |l| == n
    && (forall k :: 0 <= k < n ==> !l[k].live && s.issued[k] == NotifyData(k + 1, 0))
  }

  lemma SpendLedger(l: seq<Request>)
    requires forall k :: 0 <= k < |l| ==> !l[k].live
    ensures LedgerStep(LedgerStep(l, Create(0)), Destroy(0)) == l + [Request(0, 0, [], false)]
  {
    assert FreeHandle(l, 0) == 0;
    var created := LedgerStep(l, Create(0));
    assert Close(created, 0) == l + [Request(0, 0, [], false)];
  }

  lemma SpendTable(s: System)
    requires s.slots == Initial().slots
    ensures Step(Step(s, Create(0)), Destroy(0)) ==
            System(s.slots, s.nextRequestID + 1, s.issued + [NotifyData(s.nextRequestID, 0)])
  {
    assert FirstIdle(s.slots, 0) == 0;
    assert Step(Step(s, Create(0)), Destroy(0)).slots == s.slots;
  }

  lemma SpendOne(s: System, l: seq<Request>, n: nat)
    requires AllSpent(s, l, n)
    ensures AllSpent(Step(Step(s, Create(0)), Destroy(0)), LedgerStep(LedgerStep(l, Create(0)), Destroy(0)), n + 1)
  {
    SpendTable(s);
    SpendLedger(l);
  }

  lemma {:induction false} SpentLeaves(n: nat)
    ensures AllSpent(Run(Spent(n)), Ledger(Spent(n)), n)
  {
    if n > 0 {
      SpentLeaves(n - 1);
      SpendOne(Run(Spent(n - 1)), Ledger(Spent(n - 1)), n - 1);
      SpentNext(n - 1);
    }
  }

  lemma SpentNext(n: nat)
    ensures Run(Spent(n + 1)) == Step(Step(Run(Spent(n)), Create(0)), Destroy(0))
    ensures Ledger(Spent(n + 1)) == LedgerStep(LedgerStep(Ledger(Spent(n)), Create(0)), Destroy(0))
  {
    var calls := Spent(n);
    RunNext(calls, Create(0));
    RunNext(calls + [Create(0)], Destroy(0));
  }

  /** After any run of n requests in all, notifications for destroyed ones change nothing. */
  ghost predicate LateNotificationsHarmless(n: nat) {
    forall calls, k: nat, note ::
      |Ledger(calls)| == n && k < n && !Ledger(calls)[k].live ==> Step(Run(calls), Notify(k, note)) == Run(calls)
  }

  lemma BlankSlotTaken(s: System, k: nat)
    requires k < |s.issued| && |s.slots| > 0 && s.slots[0] == BLANK
    requires HandleOf(s.issued[k]) == IdOf(s.issued[k]) == 0
    ensures Step(s, Notify(k, Failure)) != s
  {
    assert Step(s, Notify(k, Failure)).slots[0] == Noted(BLANK, Failure);
  }

  /** notifyData of id 2^24 is that of a blank slot. */
  lemma UnpackedSpan(id: nat)
    requires id == ID_SPAN
    ensures HandleOf(NotifyData(id, 0)) == IdOf(NotifyData(id, 0)) == 0
  {
    Unpacked(id, 0);
  }

  lemma SpentIsHarmful(calls: seq<Call>, n: nat, k: nat)
    requires AllSpent(Run(calls), Ledger(calls), n) && k < n && k + 1 == ID_SPAN
    ensures !LateNotificationsHarmless(n)
  {
    UnpackedSpan(k + 1);
    assert Run(calls).slots[0] == BLANK;
    BlankSlotTaken(Run(calls), k);
    assert !Ledger(calls)[k].live;
  }

  /** The bound is exact: from the request with id 2^24 on there are runs in which a late notification
      takes a blank slot for its own. */
  lemma LateNotificationsExactly(n: nat)
    ensures LateNotificationsHarmless(n) <==> n < ID_SPAN
  {
    if n < ID_SPAN {
      forall calls, k: nat, note | |Ledger(calls)| == n && k < n && !Ledger(calls)[k].live
        ensures Step(Run(calls), Notify(k, note)) == Run(calls)
      {
        LateNotificationIgnored(calls, k, note);
      }
    } else {
      SpentLeaves(n);
      SpentIsHarmful(Spent(n), n, ID_SPAN - 1);
    }
  }

  /** A live request hears its own notification iff its id is below 2^23. */
  lemma OwnNotificationHeard(calls: seq<Call>, k: nat, note: Note)
    requires |Ledger(calls)| < ID_SPAN && k < |Ledger(calls)| && Ledger(calls)[k].live
    ensures Shows(Run(calls), Ledger(calls))
    ensures var s, s' := Run(calls), Step(Run(calls), Notify(k, note));
            var h := Ledger(calls)[k].handle;
            && s.slots[h].id == k + 1
            && (k + 1 < ID_LIMIT ==> s'.slots == s.slots[h := Noted(s.slots[h], note)])
            && (k + 1 >= ID_LIMIT ==> s' == s)
  {
    TableShowsLedger(calls);
    FindsOnlyItsOwn(Run(calls), Ledger(calls), k);
  }

  lemma RunNext(calls: seq<Call>, call: Call)
    ensures Ledger(calls + [call]) == LedgerStep(Ledger(calls), call)
    ensures Run(calls + [call]) == Step(Run(calls), call)
  {
    assert (calls + [call])[..|calls + [call]| - 1] == calls;
  }

  /** Request k of l, not destroyed, as it may be later: it has the same handle and semaphore, and
      the notes it had come first. */
  ghost predicate Endured(l: seq<Request>, later: seq<Request>, k: nat) {
    && k < |l| <= |later| && later[k].live
    && later[k].handle == l[k].handle && later[k].semaIndex == l[k].semaIndex
    && |l[k].notes| <= |later[k].notes| && later[k].notes[..|l[k].notes|] == l[k].notes
  }

  lemma EnduresStep(l: seq<Request>, later: seq<Request>, k: nat, call: Call)
    requires Endured(l, later, k) && call != Destroy(l[k].handle)
    ensures Endured(l, LedgerStep(later, call), k)
  {
    LedgerOnlyGrows(later, call);
  }

  ghost predicate NoDestroy(calls: seq<Call>, h: int) {
    forall i :: 0 <= i < |calls| ==> calls[i] != Destroy(h)
  }

  /** From its creation to its destruction a request keeps its handle and semaphore, and an outcome
      once it has one. */
  lemma {:induction false} RequestEndures(calls: seq<Call>, more: seq<Call>, k: nat)
    requires k < |Ledger(calls)| && Ledger(calls)[k].live && NoDestroy(more, Ledger(calls)[k].handle)
    ensures Endured(Ledger(calls), Ledger(calls + more), k)
  {
    if more == [] {
      assert calls + more == calls;
    } else {
      var n := |more| - 1;
      var before, last := more[..n], more[n];
      RequestEndures(calls, before, k);
      EnduresNext(calls, before, k, last);
      assert calls + more == calls + (before + [last]);
    }
  }

  lemma EnduresNext(calls: seq<Call>, more: seq<Call>, k: nat, call: Call)
    requires Endured(Ledger(calls), Ledger(calls + more), k) && call != Destroy(Ledger(calls)[k].handle)
    ensures Endured(Ledger(calls), Ledger(calls + (more + [call])), k)
  {
    EnduresStep(Ledger(calls), Ledger(calls + more), k, call);
    RunNext(calls + more, call);
    assert calls + (more + [call]) == calls + more + [call];
  }

  /** Success is final until destroy, and so is failure. */
  lemma OutcomeIsFinal(calls: seq<Call>, more: seq<Call>, k: nat)
    requires |Ledger(calls + more)| < ID_SPAN
    requires k < |Ledger(calls)| && Ledger(calls)[k].live && Ledger(calls)[k].notes != []
    requires NoDestroy(more, Ledger(calls)[k].handle)
    ensures Shows(Run(calls), Ledger(calls)) && Shows(Run(calls + more), Ledger(calls + more))
    ensures var h := Ledger(calls)[k].handle;
            var was, now := Run(calls).slots[h], Run(calls + more).slots[h];
            now.id == was.id == k + 1 && now.status == was.status != InProgress
  {
    RequestEndures(calls, more, k);
    TableShowsLedger(calls);
    TableShowsLedger(calls + more);
    var before, after := Ledger(calls)[k].notes, Ledger(calls + more)[k].notes;
    assert after[0] == after[..|before|][0];
  }

  // --------------------------------------------------------------------------- signals

  /** How often request k's semaphore was signalled for it in the run. */
  function SignalsFor(calls: seq<Call>, k: nat): nat {
    if calls == [] then 0
    else
      var before, call := calls[..|calls| - 1], calls[|calls| - 1];
      SignalsFor(before, k) +
      if call.Notify? && call.request == k < |Run(before).issued|
         && Signals(Run(before).slots, Run(before).issued[k]) then 1 else 0
  }

  /** A request that succeeds signals its semaphore exactly once, one that fails once for every
      notification, a completion after the failure included. */
  lemma {:induction false} SignalsExact(calls: seq<Call>, k: nat)
    requires |Ledger(calls)| < ID_SPAN
    ensures k >= |Ledger(calls)| ==> SignalsFor(calls, k) == 0
    ensures k < |Ledger(calls)| ==>
              var notes := Ledger(calls)[k].notes;
              SignalsFor(calls, k) == if notes != [] && notes[0].Completion? then 1 else |notes|
  {
    if calls != [] {
      var before, call := calls[..|calls| - 1], calls[|calls| - 1];
      LedgerOnlyGrows(Ledger(before), call);
      SignalsExact(before, k);
      TableShowsLedger(before);
      if call.Notify? && call.request == k < |Ledger(before)| {
        FindsOnlyItsOwn(Run(before), Ledger(before), k);
      }
    }
  }
}
