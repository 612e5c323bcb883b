/** The URL request functions of sqMacNSPlugin.c, updating the table in place. */
module UrlRequests {
  import opened UrlLedger

  class RequestTable {
    const urlRequests: array<Record>
    var nextRequestID: nat
    /** The notifyData of every request so far. */
    ghost var issued: seq<int>

    ghost predicate Valid() {
      urlRequests.Length == URL_REQUEST_COUNT
    }

    ghost function View(): System
      reads this, urlRequests
    {
      System(urlRequests[..], nextRequestID, issued)
    }

    constructor ()
      ensures Valid() && View() == Initial()
    {
      urlRequests := new Record[URL_REQUEST_COUNT](_ => BLANK);
      nextRequestID, issued := 1, [];
    }

    /** The first idle slot, or -1. */
    method FindIdleURLRequest() returns (handle: int)
      requires Valid()
      ensures handle == -1 ==> forall k :: 0 <= k < URL_REQUEST_COUNT ==> !urlRequests[k].status.Idle?
      ensures handle != -1 ==>
                && 0 <= handle < URL_REQUEST_COUNT && urlRequests[handle].status.Idle?
                && forall k :: 0 <= k < handle ==> !urlRequests[k].status.Idle?
    {
      for i := 0 to URL_REQUEST_COUNT
        invariant forall k :: 0 <= k < i ==> !urlRequests[k].status.Idle?
      {
        if urlRequests[i].status.Idle? {
          return i;
        }
      }
      handle := -1;
    }

    /** Starts a request and passes notifyData to the network layer; -1, and nothing changes, if
        there is no plugin instance or no idle slot. */
    method URLRequestCreate(hasInstance: bool, semaIndex: int) returns (handle: int, notifyData: int)
      requires Valid()
      modifies this, urlRequests
      ensures View() == if hasInstance then Step(old(View()), Create(semaIndex)) else old(View())
      ensures handle == -1 <==> issued == old(issued)
      ensures handle != -1 ==>
                handle == FirstIdle(old(urlRequests[..]), 0) < URL_REQUEST_COUNT && issued == old(issued) + [notifyData]
      ensures handle == -1 ==>
                && urlRequests[..] == old(urlRequests[..]) && nextRequestID == old(nextRequestID)
                && (hasInstance ==> forall k :: 0 <= k < 100 ==> !old(urlRequests[k]).status.Idle?)
      ensures handle != -1 ==>
                && hasInstance && 0 <= handle < 100 && nextRequestID == old(nextRequestID) + 1
                && old(urlRequests[handle]).status.Idle?
                && (forall k :: 0 <= k < handle ==> !old(urlRequests[k]).status.Idle?)
                && urlRequests[handle] ==
                   Record(old(nextRequestID), InProgress, semaIndex, old(urlRequests[handle]).fileName, 0)
                && (forall k :: 0 <= k < 100 && k != handle ==> urlRequests[k] == old(urlRequests[k]))
      ensures handle != -1 ==>
                && -0x8000_0000 <= notifyData < 0x8000_0000
                && (notifyData - (old(nextRequestID) * 256 + handle)) % 0x1_0000_0000 == 0
    {
      if !hasInstance {
        return -1, 0;
      }
      handle := FindIdleURLRequest();
      FirstIdleIs(urlRequests[..], 0, if handle == -1 then URL_REQUEST_COUNT else handle);
      if handle < 0 {
        return handle, 0;
      }
      urlRequests[handle] := urlRequests[handle].(id := nextRequestID);
      nextRequestID := nextRequestID + 1;
      urlRequests[handle] := urlRequests[handle].(status := InProgress);
      urlRequests[handle] := urlRequests[handle].(semaIndex := semaIndex);
      urlRequests[handle] := urlRequests[handle].(buffer := 0);
      notifyData := Wrap32(Wrap32(urlRequests[handle].id * 256) + handle);
      PackedIs(urlRequests[handle].id, handle);
      issued := issued + [notifyData];
    }

    /** Records a completion; `signalled` are the semaphores signalled, and `freed` the buffer given
        back. */
    method URLRequestCompleted(notifyData: int, fileName: Name) returns (signalled: seq<int>, freed: nat)
      requires Valid()
      modifies urlRequests
      ensures View() == old(View()).(slots := Notified(old(View()).slots, notifyData, Completion(fileName)))
      ensures signalled != [] <==> Signals(old(View()).slots, notifyData)
      ensures freed == old(if Matches(urlRequests[..], notifyData) then urlRequests[HandleOf(notifyData)].buffer else 0)
      ensures forall k :: 0 <= k < 100 && (k != notifyData % 256 || old(urlRequests[k]).id != notifyData / 256) ==>
                urlRequests[k] == old(urlRequests[k])
      ensures notifyData % 256 < 100 && old(urlRequests[notifyData % 256]).id == notifyData / 256 ==>
                var was, now := old(urlRequests[notifyData % 256]), urlRequests[notifyData % 256];
                && now.id == was.id && now.semaIndex == was.semaIndex && now.buffer == 0 && freed == was.buffer
                && signalled == (if was.status == Succeeded then [] else [was.semaIndex])
                && now.status == (if was.status == Failed then Failed else Succeeded)
                && (fileName.NoName? ==> now.fileName == was.fileName)
                && (fileName.Name? ==>
                      && now.fileName <= fileName.text
                      && |now.fileName| == if |fileName.text| <= 1000 then |fileName.text| else 1000)
      ensures notifyData % 256 >= 100 || old(urlRequests[notifyData % 256]).id != notifyData / 256 ==>
                signalled == [] && freed == 0
    {
      var handle := notifyData % 256;
      signalled, freed := [], 0;
      if handle < 0 || handle >= URL_REQUEST_COUNT {
        return;
      }
      if urlRequests[handle].id == notifyData / 256 {
        if fileName.Name? {
          urlRequests[handle] := urlRequests[handle].(fileName := Clip(fileName.text));
        }
        if urlRequests[handle].buffer != 0 {
          freed := urlRequests[handle].buffer;
          urlRequests[handle] := urlRequests[handle].(buffer := 0);
        }
        if urlRequests[handle].status != Succeeded {
          if urlRequests[handle].status != Failed {
            urlRequests[handle] := urlRequests[handle].(status := Succeeded);
          }
          signalled := signalled + [urlRequests[handle].semaIndex];
        }
      }
    }

    method URLRequestFailed(notifyData: int) returns (signalled: seq<int>, freed: nat)
      requires Valid()
      modifies urlRequests
      ensures View() == old(View()).(slots := Notified(old(View()).slots, notifyData, Failure))
      ensures signalled != [] <==> Signals(old(View()).slots, notifyData)
      ensures freed == old(if Matches(urlRequests[..], notifyData) then urlRequests[HandleOf(notifyData)].buffer else 0)
      ensures forall k :: 0 <= k < 100 && (k != notifyData % 256 || old(urlRequests[k]).id != notifyData / 256) ==>
                urlRequests[k] == old(urlRequests[k])
      ensures notifyData % 256 < 100 && old(urlRequests[notifyData % 256]).id == notifyData / 256 ==>
                var was, now := old(urlRequests[notifyData % 256]), urlRequests[notifyData % 256];
                && now.id == was.id && now.semaIndex == was.semaIndex && now.buffer == 0 && freed == was.buffer
                && signalled == (if was.status == Succeeded then [] else [was.semaIndex])
                && now.status == (if was.status == Succeeded then Succeeded else Failed)
                && now.fileName == was.fileName
      ensures notifyData % 256 >= 100 || old(urlRequests[notifyData % 256]).id != notifyData / 256 ==>
                signalled == [] && freed == 0
    {
      var handle := notifyData % 256;
      signalled, freed := [], 0;
      if handle < 0 || handle >= URL_REQUEST_COUNT {
        return;
      }
      if urlRequests[handle].id == notifyData / 256 {
        if urlRequests[handle].buffer != 0 {
          freed := urlRequests[handle].buffer;
          urlRequests[handle] := urlRequests[handle].(buffer := 0);
        }
        if urlRequests[handle].status != Succeeded {
          urlRequests[handle] := urlRequests[handle].(status := Failed);
          signalled := signalled + [urlRequests[handle].semaIndex];
        }
      }
    }

    /** Blanks the slot; `deleted` is the file removed, if the request had one. */
    method URLRequestDestroy(requestHandle: int) returns (deleted: string)
      requires Valid()
      modifies urlRequests
      ensures View() == Step(old(View()), Destroy(requestHandle))
      ensures deleted == if 0 <= requestHandle < URL_REQUEST_COUNT then old(urlRequests[requestHandle]).fileName else ""
      ensures forall k :: 0 <= k < 100 ==>
                urlRequests[k] == if k == requestHandle then Record(0, Idle, 0, "", 0) else old(urlRequests[k])
    {
      deleted := "";
      if requestHandle < 0 || requestHandle >= URL_REQUEST_COUNT {
        return;
      }
      urlRequests[requestHandle] := urlRequests[requestHandle].(id := 0);
      urlRequests[requestHandle] := urlRequests[requestHandle].(status := Idle);
      urlRequests[requestHandle] := urlRequests[requestHandle].(semaIndex := 0);
      if urlRequests[requestHandle].fileName != "" {
        deleted := urlRequests[requestHandle].fileName;
        urlRequests[requestHandle] := urlRequests[requestHandle].(fileName := "");
      }
      urlRequests[requestHandle] := urlRequests[requestHandle].(fileName := "");
      urlRequests[requestHandle] := urlRequests[requestHandle].(buffer := 0);
    }

    /** After any run the status of a live request is the one its first notification gave it. */
    method URLRequestStatus(requestHandle: int) returns (status: int)
      requires Valid()
      ensures forall calls, k ::
                View() == Run(calls) && k in LiveAt(Ledger(calls), requestHandle) && |Ledger(calls)| < ID_SPAN ==>
                  var notes := Ledger(calls)[k].notes;
                  status == if notes == [] then 1 else if notes[0].Completion? then 3 else 2
      ensures status == -1 <==>
                !(0 <= requestHandle < URL_REQUEST_COUNT) || urlRequests[requestHandle].status.Idle?
      ensures 0 <= requestHandle < 100 ==>
                match urlRequests[requestHandle].status
                case Idle => status == -1
                case InProgress => status == 1
                case Failed => status == 2
                case Succeeded => status == 3
    {
      status := -1;
      if 0 <= requestHandle < URL_REQUEST_COUNT && Code(urlRequests[requestHandle].status) >= Code(InProgress) {
        status := Code(urlRequests[requestHandle].status);
      }
      forall calls, k | View() == Run(calls) && k in LiveAt(Ledger(calls), requestHandle) && |Ledger(calls)| < ID_SPAN
        ensures var notes := Ledger(calls)[k].notes;
                status == if notes == [] then 1 else if notes[0].Completion? then 3 else 2
      {
        TableShowsLedger(calls);
      }
    }

    /** Whatever the table held, the runs start here. */
    method InitURLRequestTable()
      requires Valid()
      modifies this, urlRequests
      ensures View() == Initial()
      ensures nextRequestID == 1 && forall k :: 0 <= k < 100 ==> urlRequests[k] == Record(0, Idle, 0, "", 0)
    {
      for i := 0 to URL_REQUEST_COUNT
        invariant forall k :: 0 <= k < i ==> urlRequests[k] == BLANK
      {
        ghost var before := urlRequests[..];
        var _ := URLRequestDestroy(i);
        assert urlRequests[..] == before[i := BLANK];
        assert forall k :: 0 <= k < i ==> urlRequests[k] == urlRequests[..][k] == before[k];
      }
      nextRequestID, issued := 1, [];
    }
  }

  function Code(s: Status): int {
    match s
    case Idle => 0
    case InProgress => 1
    case Failed => 2
    case Succeeded => 3
  }

  ghost function LiveAt(l: seq<Request>, h: int): set<nat> {
    set k: nat | k < |l| && l[k].live && l[k].handle == h
  }

  /** notifyData is (id << 8) + handle up to a multiple of 2^32, and an int. */
  lemma PackedIs(id: nat, handle: nat)
    ensures -0x8000_0000 <= NotifyData(id, handle) < 0x8000_0000
    ensures (NotifyData(id, handle) - (id * 256 + handle)) % 0x1_0000_0000 == 0
  {
  }

  lemma {:induction false} FirstIdleIs(slots: seq<Record>, i: nat, h: nat)
    requires i <= h <= |slots| && (h < |slots| ==> slots[h].status.Idle?)
    requires forall k :: i <= k < h ==> !slots[k].status.Idle?
    ensures FirstIdle(slots, i) == h
    decreases h - i
  {
    if i < h { FirstIdleIs(slots, i + 1, h); }
  }
}
