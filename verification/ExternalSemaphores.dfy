/**
 sqExternalSemaphores.c as the program runs it when nothing interferes: the statics are the fields
 of one object, updated in place. Each method is proved equal to the closed form that SignalRounds
 shows to be a run of the protocol.
 */
module ExternalSemaphores {
  import opened Division
  import opened SignalProtocol
  import opened SignalDelivery
  import opened SignalRounds

  /** The 1-based position of the top set bit, 0 for 0. */
  function HighBit(n: nat): (k: nat)
    ensures n < Power(k)
    ensures n > 0 ==> k > 0 && Power(k - 1) <= n
  {
    if n == 0 then 0 else HighBit(n / 2) + 1
  }

  class SignalTable {
    const modulus: Modulus
    var signalRequests: array<Slot>
    var checkSignalRequests: bool
    var useTideA: bool
    var lowTideA: int
    var highTideA: int
    var lowTideB: int
    var highTideB: int
    var interruptForced: bool
    /** The semaphores signalled so far, in order. */
    var signalled: seq<int>

    /** The protocol state this object is in, nobody being active. */
    ghost function View(limit: int): State
      reads this, signalRequests
    {
      State(modulus, limit, signalRequests[..], checkSignalRequests, useTideA,
            Tide(lowTideA, highTideA), Tide(lowTideB, highTideB), interruptForced, Away, [])
    }

    ghost predicate Valid()
      reads this, signalRequests
    {
      InBounds(View(0)) && AllResidues(signalRequests[..], modulus)
    }

    constructor (m: Modulus)
      ensures Valid() && fresh(signalRequests) && modulus == m && signalled == []
      ensures forall limit :: View(limit) == Start(0, limit, m, 0)
    {
      modulus := m;
      signalRequests := new Slot[0];
      checkSignalRequests, useTideA, interruptForced := false, true, false;
      lowTideA, highTideA, lowTideB, highTideB := MAX_TIDE, MIN_TIDE, MAX_TIDE, MIN_TIDE;
      signalled := [];
    }

    /** Start-up only: grows the table to the power of two that n needs, keeping what is there. */
    method SetMaxExtSemTableSize(n: int)
      requires Valid() && n <= 0x4000_0000
      modifies this`signalRequests
      ensures Valid()
      ensures n <= |old(signalRequests[..])| ==> signalRequests == old(signalRequests)
      ensures n > |old(signalRequests[..])| ==>
                && fresh(signalRequests)
                && signalRequests.Length == Power(HighBit(n - 1))
                && n <= signalRequests.Length < 2 * n
                && signalRequests[..] ==
                   old(signalRequests[..]) + seq(signalRequests.Length - old(signalRequests.Length), _ => ZERO_SLOT)
    {
      if signalRequests.Length < n {
        var size := Power(HighBit(n - 1));
        assert size < 2 * n;
        var before := signalRequests;
        var grown := new Slot[size](j requires 0 <= j reads before =>
          if j < before.Length then before[j] else ZERO_SLOT);
        signalRequests := grown;
        assert forall j :: 0 <= j < |old(signalRequests[..])| ==> grown[..][j] == old(signalRequests[..])[j];
      }
    }

    /** The two compare-and-swap loops on side A. */
    method WidenTideA(i: int)
      modifies this`lowTideA, this`highTideA
      ensures Tide(lowTideA, highTideA) == old(Tide(lowTideA, highTideA)).Widen(i)
    {
      var v := lowTideA;
      while v > i
        invariant v == lowTideA && (v == old(lowTideA) || v == i < old(lowTideA))
        invariant highTideA == old(highTideA)
        decreases v - i
      {
        if lowTideA == v { lowTideA := i; }
        v := lowTideA;
      }
      v := highTideA;
      while v < i
        invariant v == highTideA && (v == old(highTideA) || old(highTideA) < v == i)
        invariant lowTideA == old(Tide(lowTideA, highTideA)).Widen(i).low
        decreases i - v
      {
        if highTideA == v { highTideA := i; }
        v := highTideA;
      }
    }

    /** The two compare-and-swap loops on side B. */
    method WidenTideB(i: int)
      modifies this`lowTideB, this`highTideB
      ensures Tide(lowTideB, highTideB) == old(Tide(lowTideB, highTideB)).Widen(i)
    {
      var v := lowTideB;
      while v > i
        invariant v == lowTideB && (v == old(lowTideB) || v == i < old(lowTideB))
        invariant highTideB == old(highTideB)
        decreases v - i
      {
        if lowTideB == v { lowTideB := i; }
        v := lowTideB;
      }
      v := highTideB;
      while v < i
        invariant v == highTideB && (v == old(highTideB) || old(highTideB) < v == i)
        invariant lowTideB == old(Tide(lowTideB, highTideB)).Widen(i).low
        decreases i - v
      {
        if highTideB == v { highTideB := i; }
        v := highTideB;
      }
    }

    /** Answers 0 for an index outside the table and 1 otherwise. */
    method SignalSemaphoreWithIndex(index: int) returns (answer: int)
      requires Valid()
      modifies this, signalRequests
      ensures Valid() && signalRequests == old(signalRequests) && signalled == old(signalled)
      ensures 1 <= index <= signalRequests.Length ==>
                answer == 1 && forall limit :: View(limit) == Requested(old(View(limit)), index - 1)
      ensures !(1 <= index <= signalRequests.Length) ==>
                answer == 0 && forall limit :: View(limit) == old(View(limit))
      ensures 1 <= index <= signalRequests.Length ==>
                && signalRequests[index - 1].made == old(signalRequests[index - 1]).made + 1
                && signalRequests[index - 1].requests == (old(signalRequests[index - 1]).requests + 1) % modulus
                && signalRequests[index - 1].responses == old(signalRequests[index - 1]).responses
                && signalRequests[index - 1].delivered == old(signalRequests[index - 1]).delivered
      ensures forall j :: 0 <= j < signalRequests.Length && j != index - 1 ==>
                signalRequests[j] == old(signalRequests[j])
      ensures 1 <= index <= signalRequests.Length ==>
                && checkSignalRequests && interruptForced && useTideA == old(useTideA)
                && (if useTideA then lowTideA <= index - 1 <= highTideA else lowTideB <= index - 1 <= highTideB)
      ensures useTideA ==> lowTideB == old(lowTideB) && highTideB == old(highTideB)
      ensures !useTideA ==> lowTideA == old(lowTideA) && highTideA == old(highTideA)
    {
      var i := index - 1;
      if i < 0 || i >= signalRequests.Length {
        return 0;
      }
      signalRequests[i] := signalRequests[i].Request(modulus);
      assert Residues(signalRequests[i], modulus);
      if useTideA {
        WidenTideA(i);
      } else {
        WidenTideB(i);
      }
      checkSignalRequests := true;
      interruptForced := true;
      answer := 1;
    }

    /** Answers whether some signal switched processes: switches(k) is what the k-th semaphore
        signal of this call answers. */
    method DoSignalExternalSemaphores(limit: int, switches: nat -> bool) returns (switched: bool)
      requires Valid()
      modifies this, signalRequests
      ensures Valid() && signalRequests == old(signalRequests)
      ensures View(limit) == Round(old(View(limit)))
      ensures signalled == old(signalled) + RoundLog(old(View(limit)))
      ensures switched <==> exists k :: 0 <= k < |signalled| - |old(signalled)| && switches(k)
      ensures |old(signalled)| <= |signalled| && signalled[..|old(signalled)|] == old(signalled)
      ensures forall k, l :: |old(signalled)| <= k < l < |signalled| ==> signalled[k] <= signalled[l]
      ensures forall j :: 0 <= j < signalRequests.Length ==>
                && multiset(signalled[|old(signalled)|..])[j + 1] ==
                   signalRequests[j].delivered - old(signalRequests[j]).delivered
                && signalRequests[j].delivered - old(signalRequests[j]).delivered ==
                   (if old(checkSignalRequests) && j < limit
                       && (if old(useTideA) then old(lowTideA) <= j <= old(highTideA)
                           else old(lowTideB) <= j <= old(highTideB))
                    then (old(signalRequests[j]).requests - old(signalRequests[j]).responses) % modulus else 0)
      ensures forall j :: 0 <= j < signalRequests.Length ==>
                && signalRequests[j].made == old(signalRequests[j]).made
                && signalRequests[j].requests == old(signalRequests[j]).requests
      ensures !checkSignalRequests && useTideA == (old(useTideA) != old(checkSignalRequests))
      ensures interruptForced == old(interruptForced)
      ensures if old(checkSignalRequests) && !useTideA then lowTideB == 0x7FFF_FFFF && highTideB == -1
              else lowTideB == old(lowTideB) && highTideB == old(highTideB)
      ensures if old(checkSignalRequests) && useTideA then lowTideA == 0x7FFF_FFFF && highTideA == -1
              else lowTideA == old(lowTideA) && highTideA == old(highTideA)
    {
      ghost var s := View(limit);
      RoundAscends(s);
      forall j | 0 <= j < |s.slots| ensures SendsAs(s, j) { RoundSends(s, j); }
      if !checkSignalRequests {
        assert signalled[|signalled|..] == [];
        return false;
      }
      switched := AnswerRound(limit, switches);
      assert signalled[|old(signalled)|..] == RoundLog(s);
      assert forall j :: 0 <= j < signalRequests.Length ==>
          SendsAs(s, j) && signalRequests[j] == Round(s).slots[j] && old(signalRequests[j]) == s.slots[j];
    }

    /** The round, the flag having been found raised. */
    method AnswerRound(limit: int, switches: nat -> bool) returns (switched: bool)
      requires Valid() && checkSignalRequests
      modifies this, signalRequests
      ensures Valid() && signalRequests == old(signalRequests)
      ensures View(limit) == Round(old(View(limit)))
      ensures signalled == old(signalled) + RoundLog(old(View(limit)))
      ensures switched <==> exists k :: 0 <= k < |signalled| - |old(signalled)| && switches(k)
    {
      var lowTide, highTide := TakeTides(limit);
      switched := Scan(lowTide, highTide, switches);
      // Nobody interfered, so the flag is still clear and no check needs forcing.
      assert !checkSignalRequests;
    }

    /** Takes the flag, empties the tides not in use, toggles, and reads the tides in use before. */
    method TakeTides(limit: int) returns (lowTide: int, highTide: int)
      requires Valid() && checkSignalRequests
      modifies this`checkSignalRequests, this`useTideA, this`lowTideA, this`highTideA, this`lowTideB, this`highTideB
      ensures Valid() && !checkSignalRequests && useTideA == !old(useTideA)
      ensures Tide(lowTideA, highTideA) == if old(useTideA) then old(Tide(lowTideA, highTideA)) else EMPTY_TIDE
      ensures Tide(lowTideB, highTideB) == if old(useTideA) then EMPTY_TIDE else old(Tide(lowTideB, highTideB))
      ensures lowTide == (if old(useTideA) then old(lowTideA) else old(lowTideB))
      ensures highTide == Clamp(if old(useTideA) then old(highTideA) else old(highTideB), limit)
    {
      checkSignalRequests := false;
      if useTideA {
        lowTideB := MAX_TIDE;
        highTideB := MIN_TIDE;
        useTideA := false;
        lowTide := lowTideA;
        highTide := highTideA;
      } else {
        lowTideA := MAX_TIDE;
        highTideA := MIN_TIDE;
        useTideA := true;
        lowTide := lowTideB;
        highTide := highTideB;
      }
      if highTide >= limit {
        highTide := limit - 1;
      }
    }

    /** The scan: for each index from low to high, signal until the counters agree. */
    method Scan(low: int, high: int, switches: nat -> bool) returns (switched: bool)
      requires 0 <= low && high < signalRequests.Length && AllResidues(signalRequests[..], modulus)
      modifies this`signalled, signalRequests
      ensures AllResidues(signalRequests[..], modulus)
      ensures signalRequests[..] == old(DrainRange(signalRequests[..], low, high, modulus))
      ensures signalled == old(signalled) + old(Signals(signalRequests[..], low, high, modulus))
      ensures switched <==> exists k :: 0 <= k < |signalled| - |old(signalled)| && switches(k)
    {
      ghost var total := ScanResult(DrainRange(signalRequests[..], low, high, modulus),
                                    signalled + Signals(signalRequests[..], low, high, modulus));
      switched := false;
      var sent := 0;
      var i := low;
      while i <= high
        invariant low <= i
        invariant high < signalRequests.Length && LeadsTo(signalRequests[..], signalled, i, high, modulus, total)
        invariant sent >= 0 && |signalled| == |old(signalled)| + sent
        invariant switched <==> exists k :: 0 <= k < sent && switches(k)
        decreases high - i
      {
        while !signalRequests[i].Settled()
          invariant LeadsTo(signalRequests[..], signalled, i, high, modulus, total)
          invariant sent >= 0 && |signalled| == |old(signalled)| + sent
          invariant switched <==> exists k :: 0 <= k < sent && switches(k)
          decreases Backlog(signalRequests[i], modulus)
        {
          ghost var slots := signalRequests[..];
          Answering(slots, signalled, i, high, modulus, total);
          if switches(sent) {
            switched := true;
          }
          signalled := signalled + [i + 1];
          sent := sent + 1;
          signalRequests[i] := signalRequests[i].Deliver().Respond(modulus);
          assert signalRequests[..] == slots[i := slots[i].Deliver().Respond(modulus)];
        }
        Passing(signalRequests[..], signalled, i, high, modulus, total);
        i := i + 1;
      }
      assert DrainRange(signalRequests[..], i, high, modulus) == signalRequests[..];
    }
  }

  /** What RoundSends says of slot j. */
  ghost predicate SendsAs(s: State, j: nat)
    requires InBounds(s) && AllResidues(s.slots, s.modulus) && j < |s.slots|
  {
    && |Round(s).slots| == |s.slots|
    && var was, now := s.slots[j], Round(s).slots[j];
       && multiset(RoundLog(s))[j + 1] == now.delivered - was.delivered
       && now.delivered - was.delivered ==
          (if s.check && j < s.limit && s.InUse().low <= j <= s.InUse().high
           then (was.requests - was.responses) % s.modulus else 0)
       && now.made == was.made && now.requests == was.requests
  }

  /** What a scan ends with: the table and the log of signals. */
  datatype ScanResult = ScanResult(slots: seq<Slot>, log: seq<int>)

  /** Scanning i..high from here still leads to `total`. */
  ghost predicate LeadsTo(slots: seq<Slot>, log: seq<int>, i: int, high: int, m: Modulus, total: ScanResult)
    requires 0 <= i && high < |slots|
  {
    && AllResidues(slots, m)
    && DrainRange(slots, i, high, m) == total.slots
    && log + Signals(slots, i, high, m) == total.log
  }

  lemma Answering(slots: seq<Slot>, log: seq<int>, i: nat, high: int, m: Modulus, total: ScanResult)
    requires i <= high < |slots| && LeadsTo(slots, log, i, high, m, total) && !slots[i].Settled()
    ensures var next := slots[i := slots[i].Deliver().Respond(m)];
            && LeadsTo(next, log + [i + 1], i, high, m, total)
            && 0 <= Backlog(next[i], m) < Backlog(slots[i], m)
  {
    SignalOne(slots, i, high, m);
    var next := slots[i := slots[i].Deliver().Respond(m)];
    assert log + [i + 1] + Signals(next, i, high, m) == log + ([i + 1] + Signals(next, i, high, m));
  }

  lemma Passing(slots: seq<Slot>, log: seq<int>, i: nat, high: int, m: Modulus, total: ScanResult)
    requires i <= high < |slots| && LeadsTo(slots, log, i, high, m, total) && slots[i].Settled()
    ensures LeadsTo(slots, log, i + 1, high, m, total)
  {
    SkipSettled(slots, i, high, m);
    BacklogIsDistance(slots[i], m);
    assert Repeat(i + 1, 0) == [];
  }

  /** Answering one request of slot i takes one index off the front of what is to be signalled. */
  lemma SignalOne(slots: seq<Slot>, i: nat, high: int, m: Modulus)
    requires i <= high < |slots| && AllResidues(slots, m) && !slots[i].Settled()
    ensures var next := slots[i := slots[i].Deliver().Respond(m)];
            && AllResidues(next, m)
            && DrainRange(next, i, high, m) == DrainRange(slots, i, high, m)
            && 0 <= Backlog(next[i], m) < Backlog(slots[i], m)
            && Signals(slots, i, high, m) == [i + 1] + Signals(next, i, high, m)
  {
    DrainAfterAnswer(slots, i, high, m);
    AnswerOne(slots[i], m);
    var next := slots[i := slots[i].Deliver().Respond(m)];
    SignalsElsewhere(slots, next, i + 1, high, m);
    assert Repeat(i + 1, Backlog(slots[i], m)) == [i + 1] + Repeat(i + 1, Backlog(next[i], m));
  }

  lemma {:induction false} SignalsElsewhere(slots: seq<Slot>, next: seq<Slot>, i: nat, high: int, m: Modulus)
    requires high < |slots| == |next| && AllResidues(slots, m) && AllResidues(next, m)
    requires forall j :: i <= j <= high ==> slots[j] == next[j]
    ensures Signals(slots, i, high, m) == Signals(next, i, high, m)
    decreases high - i + 1
  {
    if i <= high { SignalsElsewhere(slots, next, i + 1, high, m); }
  }
}
