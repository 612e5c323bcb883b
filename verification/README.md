# Verified models of the VM's run-time support

The project models parts of the cross-platform and Mac run-time support of the Squeak/Cog virtual
machine and proves what they are for.

* **External semaphores** (`SignalProtocol`, `SignalAccounting`, `SignalTides`, `SignalDelivery`,
  `SignalRounds`, `SignalLoss`, `ExternalSemaphores`). Any number of requesters and one responder take
  single statements in any order; request counters wrap, and unbounded counts are carried beside them.
  No signal is lost as long as no toggle of `useTideA` comes too early: inside a requester's window from
  reading it to its last compare-and-swap, while neither side covers the index. With all else at rest
  such toggles are exactly those that can lose a request; a run from the start shows one, and another
  that a full period of requests in one round is invisible. The object in `ExternalSemaphores` updates
  the statics in place and is proved equal to closed forms that are proved to be runs of the protocol.
* **Heap map** (`HeapMap*`). Both layouts refine a set of word addresses given by the history of puts
  and clears; the index arithmetic is a bijection; the leak check finds exactly the unreferenced.
* **Tickers** (`TickerDeadlines`, `SynchronousTicker`, `HighPriorityTicker`, `TickeeExclusion`, `TickeeRaces`).
  Deadline arithmetic over any run of heartbeats; the synchronous list as an ordered map; the
  asynchronous registry with complete heartbeat checks between any two statements of the VM thread;
  mutual exclusion of a tickee's activations under statement-level interleaving of checks; and
  the race of checks on other threads with registrations, statement by statement and with times. The
  code does not rule out calls of a disabled slot, double activations and calls before their deadline;
  for each the statement at which it becomes reachable is characterised exactly, and a run from the
  start shows the failure.
* **Module registry** (`ModuleRegistry`, `NamedPrims`). A linked list relinked in place refines a value
  whose names stay distinct and whose handles are conserved over every run.
* **URL requests** (`UrlLedger`, `UrlRequests`). A table of reused slots refines a ledger in which
  requests are never forgotten, so late notifications cannot reach the wrong request.
* **Event buffer** (`EventQueue`, `EventRing`). A ring with an undo refines a bounded FIFO, and the
  image gets the input without repeated mouse events exactly if the ring was never full; wheel events
  under Carbon are never dropped as repeats.
* **Segment memory** (`SegmentMemory`). Page rounding with its 32-bit mask, and the mapping loop over an
  arbitrary `mmap`.

`Division` holds powers of two and the few facts about quotients the others share. `dafny verify dfyconfig.toml` checks
the whole project.

Where code and comments disagree the model follows the code. The page sizes in `sqHeapMap.c` are twice
and eight times what the index macros use, and the comment at lines 34-37 gives half of the 32-bit one;
only addresses below 2^61 fit the 65536 root entries. `checkHighPriorityTickees` says the VM thread does
not disturb a non-zero entry, but it disables one under a check (`NullCallFromStart`) and clears its
`inProgress` (`DoubleRunFromStart`). The
comment in `nextEventPut` says the last event is dropped on overflow; it is the oldest.
`URLRequestCompleted` signals for a request already marked failed. The header of the semaphore code
speaks of lock freedom without the proviso that `StalledRequestIsLost` shows to be needed.

## Model

| member | source | states |
|---|---|---|
| SignalProtocol.Run | platforms/Cross/vm/sqExternalSemaphores.c:91-95 | After any interleaving of requesters, interrupt checks and responder statements every index anyone is about to use, the scan included, is a table index, even with a snapshot taken between the low and the high update |
| SignalProtocol.Step | platforms/Cross/vm/sqExternalSemaphores.c:140-261 | One statement of one requester or of the responder keeps every tide mark, program counter and snapshot within the table |
| SignalProtocol.StepRequester | platforms/Cross/vm/sqExternalSemaphores.c:151-193 | The requester statements keep the bounds and the number of slots and requesters |
| SignalProtocol.StepMark | platforms/Cross/vm/sqExternalSemaphores.c:163-188 | So do the two compare-and-swap loops, statement by statement, failed swaps included |
| SignalProtocol.StepFlip | platforms/Cross/vm/sqExternalSemaphores.c:211-233 | Taking the flag, emptying the idle tides, toggling and the low snapshot keep the bounds and no requester is touched |
| SignalProtocol.StepScan | platforms/Cross/vm/sqExternalSemaphores.c:232-258 | The high snapshot, the clamp and the scan keep the bounds: what is scanned lies in the table |
| SignalDelivery.NoLostSignal | platforms/Cross/vm/sqExternalSemaphores.c:140-261 | Concurrent setting: after any schedule without a toggle that comes too early for i (i unanswered, a requester for i in its window on the side in use, neither side covering i), an unanswered request for i is in flight or on its way, and with no such request half done the responder is at work, a check is due, or i is answered |
| SignalDelivery.NoLostSignalUnderInterrupts | platforms/Cross/vm/sqExternalSemaphores.c:36-55 | Interrupt setting: with whole requests between any two responder statements, each index with unequal counters is in the tides in use with the flag raised or due this round, or in the unpassed part of the snapshot; an idle responder with a clear flag means all answered |
| SignalDelivery.DeliveringStep | platforms/Cross/vm/sqExternalSemaphores.c:140-261 | The delivery invariant for i is kept by every statement of anyone that is not such a toggle |
| SignalDelivery.UndisturbedIsClean | platforms/Cross/vm/sqExternalSemaphores.c:163-233 | In particular by schedules in which no toggle at all falls inside a window for i |
| SignalDelivery.WholeRequestsAreClean | platforms/Cross/vm/sqExternalSemaphores.c:41-48 | Schedules made of whole requests never toggle inside a window, so the interrupt setting needs no further assumption |
| SignalLoss.StalledRequestIsLost | platforms/Cross/vm/sqExternalSemaphores.c:163-188 | Without the restriction a signal can be lost: for any two indices there is a run of two requests and two rounds from the start that ends idle, flag clear, with the request for i never signalled |
| SignalLoss.ToggleLosesExactly | platforms/Cross/vm/sqExternalSemaphores.c:163-233 | The other half: in any state in which the responder is about to toggle under a requester in its window for i on the side in use, i unanswered and all else at rest, the request can end up unanswered with everything quiet, without new requests, if and only if the toggle comes too early, that is neither side covers i |
| SignalLoss.SureIsAnswered | platforms/Cross/vm/sqExternalSemaphores.c:163-249 | Whatever else goes on, an index that is caught, or covered by the idle side with the flag raised or still to be as the responder toggles, is answered whenever a run without new requests ends quiet |
| SignalLoss.FullPeriodVanishes | platforms/Cross/vm/sqExternalSemaphores.c:64-72 | A full counter period of requests between two rounds looks like none: a clean run that ends settled with m requests made and none delivered |
| SignalAccounting.NeverOverSignals | platforms/Cross/vm/sqExternalSemaphores.c:242-249 | For every interleaving and however often the counters wrap, the signals delivered for an index never outnumber the requests made for it |
| SignalAccounting.SettledMeansAnswered | platforms/Cross/vm/sqExternalSemaphores.c:243 | Equal counters mean all answered if and only if the backlog stayed below the counter period |
| SignalAccounting.AccountedStep | platforms/Cross/vm/sqExternalSemaphores.c:156-249 | Every statement keeps the wrapping counters equal to the true counts modulo the period, and deliveries at most one ahead of responses |
| SignalAccounting.NothingBeyondTheLimit | platforms/Cross/vm/sqExternalSemaphores.c:239-241 | Indices at or above the table size passed to the responder are never signalled by any schedule: the clamp is why delivery is claimed below it only |
| SignalTides.TidesOnlyWiden | platforms/Cross/vm/sqExternalSemaphores.c:163-188 | Between resets of a side, for any interleaving, its low mark only falls and its high mark only rises |
| SignalTides.FinishedRequestersAreCovered | platforms/Cross/vm/sqExternalSemaphores.c:163-188 | A requester that finished its two loops on a side lies inside the marks of that side as long as it is not reset |
| SignalRounds.RoundIsARun | platforms/Cross/vm/sqExternalSemaphores.c:204-261 | The closed form of a round is exactly what an interrupt check and the statements after it do when nobody interferes |
| SignalRounds.RequestIsARun | platforms/Cross/vm/sqExternalSemaphores.c:140-194 | The closed form of a request for slot i is exactly what the call with index i + 1 and its own further statements do when nobody interferes |
| SignalRounds.CallIsAboutItsIndex | platforms/Cross/vm/sqExternalSemaphores.c:142-152 | A call with index n is about slot n - 1 from its first statement on, whichever side is in use; out of range it does nothing |
| SignalRounds.CountsItsSlot | platforms/Cross/vm/sqExternalSemaphores.c:156 | The atomic add counts one request, modulo the period, in the slot of the call and leaves responses, deliveries and every other slot alone |
| SignalRounds.DrainIsARun | platforms/Cross/vm/sqExternalSemaphores.c:242-249 | An undisturbed scan ends and leaves each slot of the clamped range with equal counters and its backlog delivered, the other slots untouched |
| SignalRounds.RoundSends | platforms/Cross/vm/sqExternalSemaphores.c:210-249 | A round sends for each slot as many signals as its delivered count rises: (requests - responses) modulo the period if the flag was up and the slot lies within the tides in use and below the limit, else none |
| SignalRounds.RoundAscends | platforms/Cross/vm/sqExternalSemaphores.c:242-249 | The signals of a round come in ascending order of their indices |
| SignalRounds.SignalsExact | platforms/Cross/vm/sqExternalSemaphores.c:242-249 | A scan signals each index of the range exactly (requests - responses) modulo the period times, in ascending order, and no other index |
| SignalRounds.RoundAnswers | platforms/Cross/vm/sqExternalSemaphores.c:50-54 | Every request made is a signal delivered: after any schedule that is clean for i and leaves nobody active, one undisturbed round leaves i settled, with as many signals delivered as requests made if and only if less than a counter period of them was open |
| SignalRounds.MarkIsARun | platforms/Cross/vm/sqExternalSemaphores.c:163-193 | From any statement of its two loops a requester alone finishes, with its side widened and the flag raised |
| ExternalSemaphores.SignalTable.SetMaxExtSemTableSize | platforms/Cross/vm/sqExternalSemaphores.c:108-127 | Grows to a power of two at least n and below 2n, keeps the old entries, zeroes the rest; otherwise changes nothing |
| ExternalSemaphores.HighBit | platforms/Cross/vm/sqExternalSemaphores.c:118-119 | The 1-based position of the top set bit: n < 2^k and, for n > 0, 2^(k-1) <= n |
| ExternalSemaphores.SignalTable.SignalSemaphoreWithIndex | platforms/Cross/vm/sqExternalSemaphores.c:140-194 | In range: slot index - 1 counts one request more modulo the period and no other slot changes, the side in use comes to cover it, flag and forced check are set, and the statics are those of the closed form; else it answers 0 and changes nothing |
| ExternalSemaphores.SignalTable.DoSignalExternalSemaphores | platforms/Cross/vm/sqExternalSemaphores.c:204-261 | Sends, in ascending order after what was sent before, each covered index below the limit its (requests - responses) modulo the period times if the flag was up, and no other; toggles the side, clears the flag, updates the statics to the closed form of a round, and answers true iff some signal sent switches |
| ExternalSemaphores.SignalTable.Scan | platforms/Cross/vm/sqExternalSemaphores.c:242-249 | The nested loops drain exactly the range and terminate by the modular distance |
| ExternalSemaphores.SignalOne | platforms/Cross/vm/sqExternalSemaphores.c:243-247 | Answering one request of slot i takes one index off the front of what is still to be signalled and leads to the same drained table |
| HeapMapBits.Decompose32 | platforms/Cross/vm/sqHeapMap.c:49-51 | All indices of an aligned 32-bit address are in bounds and the address can be rebuilt from them |
| HeapMapBits.Compose32 | platforms/Cross/vm/sqHeapMap.c:49-51 | Every triple of indices in bounds is that of exactly one aligned address |
| HeapMapBits.Decompose64 | platforms/Cross/vm/sqHeapMap.c:128-131 | Directory, page, byte and bit index of an aligned address below 2^61 are in bounds and rebuild it |
| HeapMapBits.Compose64 | platforms/Cross/vm/sqHeapMap.c:128-131 | Every quadruple of indices in bounds is that of exactly one aligned address below 2^61 |
| HeapMapBits.WriteBit | platforms/Cross/vm/sqHeapMap.c:86-89 | Setting or clearing bit k of a byte is seen at bit k and nowhere else |
| HeapMapHistory.ReplayIsLastPut | platforms/Cross/vm/sqHeapMap.c:71-103 | An address is in the set a history leaves iff the last put to it since the last clear was non-zero |
| HeapMapHistory.LeakCheck | platforms/Cross/vm/sqHeapMap.c:11-18 | After clearing, marking every header and unmarking every referenced one, the set bits are exactly the headers never referenced |
| HeapMap32.HeapMap.HeapMapAtWord | platforms/Cross/vm/sqHeapMap.c:56-66 | Non-zero iff the last put to the word since the last clear was non-zero; misalignment is an error |
| HeapMap32.HeapMap.HeapMapAtWordPut | platforms/Cross/vm/sqHeapMap.c:71-90 | Adds exactly this put to the history whether or not a page had to be allocated; no change if misaligned, or out of memory, which means exactly an aligned address whose page was missing and could not be had |
| HeapMap32.HeapMap.ClearHeapMap | platforms/Cross/vm/sqHeapMap.c:95-103 | Empties the set |
| HeapMap64.HeapMap.HeapMapAtWord | platforms/Cross/vm/sqHeapMap.c:136-149 | Non-zero iff the last put to the word since the last clear was non-zero, through directory and page |
| HeapMap64.HeapMap.HeapMapAtWordPut | platforms/Cross/vm/sqHeapMap.c:154-181 | Adds exactly this put to the history whether or not a directory or a page had to be allocated; out of memory means exactly an aligned address whose directory or page was missing and could not be had |
| HeapMap64.HeapMap.AllocateDirectory | platforms/Cross/vm/sqHeapMap.c:161-168 | Allocating a directory is unobservable |
| HeapMap64.HeapMap.AllocatePage | platforms/Cross/vm/sqHeapMap.c:169-176 | Allocating a page is unobservable |
| HeapMap64.HeapMap.ClearHeapMap | platforms/Cross/vm/sqHeapMap.c:186-197 | Empties the set, directory by directory and page by page |
| TickerDeadlines.OneCheck | platforms/Cross/vm/sqTicker.c:246-258 | One check calls if and only if the deadline is reached; the new deadline is the clock plus a period beyond 10 seconds of lag, else a period after the old one |
| TickerDeadlines.AfterSleep | platforms/Cross/vm/sqTicker.c:251-254 | After more than 10 seconds of lag the tickee is called at once and at a later reading exactly if that is a period or more after the first |
| TickerDeadlines.TenSecondsAreNoSleep | platforms/Cross/vm/sqTicker.c:227-257 | A lag of 10000000 microseconds keeps the phase, one more moves it to the clock |
| TickerDeadlines.CatchUpExactly | platforms/Cross/vm/sqTicker.c:245-261 | n checks at one clock reading call a tickee exactly min(n, backlog) times: the backlog is 1 beyond 10 seconds of lag, else floor(lag/period) + 1 |
| TickerDeadlines.CatchUpBound | platforms/Cross/vm/sqTicker.c:217-227 | A standing clock never calls a tickee more than 10^7/period + 1 times |
| TickerDeadlines.DriftFree | platforms/Cross/vm/sqTicker.c:251-257 | A deadline moves by at least a period per call, and by exactly one while no lag exceeds 10 seconds |
| TickerDeadlines.AtMostOncePerPeriod | platforms/Cross/vm/sqTicker.c:245-261 | Over any clock readings, hiccups included, at most (latest - deadline)/period + 1 calls |
| TickerDeadlines.ZeroPeriod | platforms/Cross/vm/sqTicker.c:207 | A period that converts to zero makes a due tickee fire at every check: the bound needs a non-zero period |
| TickerDeadlines.UsecsZero | platforms/Cross/vm/sqTicker.c:80 | A time in milliseconds converts to zero if and only if it is a multiple of 2^29 |
| TickerDeadlines.UsecsExact | platforms/Cross/vm/sqTicker.c:80 | The 32-bit conversion to microseconds is exact if and only if the period is at most 4294967 ms |
| TickerDeadlines.UsecsWraps | platforms/Cross/vm/sqTicker.c:80 | The conversion is 1000 times the milliseconds less some multiple of 2^32 |
| TickerDeadlines.FirstDeadlineIs | platforms/Cross/vm/sqTicker.c:123-131 | Without a round the first deadline is now + period; with one, the last multiple of the round not after that, moved on by a period if it lies before the second clock reading |
| TickerDeadlines.RoundedDeadline | platforms/Cross/vm/sqTicker.c:123-131 | With a round not above the period and an unchanged clock the deadline is a multiple of the round in (now, now + period] |
| TickerDeadlines.RoundedDeadlineExact | platforms/Cross/vm/sqTicker.c:123-131 | Whatever the round, with an unchanged clock the deadline lies in (now, now + period] if and only if rounding cut less than two periods and not exactly one |
| TickerDeadlines.AlignedExactly | platforms/Cross/vm/sqTicker.c:126-131 | Whatever the clock does, the deadline is aligned if and only if it was not moved on or the period is a multiple of the round |
| SynchronousTicker.Ticker.AddSynchronousTickee | platforms/Cross/vm/sqTicker.c:102-137 | Updates the array to exactly the registered or unregistered list; out of slots and unchanged iff there is none; stopped by a division by zero iff a slot is found and the round is a non-zero multiple of 2^29 ms |
| SynchronousTicker.Ticker.Remove | platforms/Cross/vm/sqTicker.c:106-116 | The memmove closes the gap: exactly the entry of the function goes |
| SynchronousTicker.Ticker.ComputeDeadline | platforms/Cross/vm/sqTicker.c:124-131 | Computes the deadline the rounding lemmas are about |
| SynchronousTicker.Ticker.IoSynchronousCheckForEvents | platforms/Cross/vm/sqTicker.c:139-156 | The places of the called entries are exactly those due, ascending; each called deadline moves on by its period, and nothing else changes |
| SynchronousTicker.Ticker.CheckEntries | platforms/Cross/vm/sqTicker.c:150-155 | The loop does one check of the specified list |
| SynchronousTicker.OneCheckMeans | platforms/Cross/vm/sqTicker.c:150-155 | In one check a tickee is called once if its deadline is reached, which then moves on by a period, and otherwise neither |
| SynchronousTicker.ChecksKeepTime | platforms/Cross/vm/sqTicker.c:150-155 | Over any sequence of checks and readings a deadline is the first one plus a period for each call |
| SynchronousTicker.ChecksKeepOrder | platforms/Cross/vm/sqTicker.c:150-155 | No check changes the functions or their order |
| SynchronousTicker.StandingClock | platforms/Cross/vm/sqTicker.c:150-155 | While the clock stands, n checks call a tickee exactly min(n, floor(lag/period) + 1) times, and not at all before its deadline: there is no 10-second rule here |
| SynchronousTicker.PlacesMean | platforms/Cross/vm/sqTicker.c:150-155 | The entries called are exactly those with a function whose deadline is reached, front to back |
| SynchronousTicker.RegisteredMeans | platforms/Cross/vm/sqTicker.c:118-135 | Registering keeps the list free of holes and repeats, updates or appends, and is map update on the timers and keeps the order |
| SynchronousTicker.UnregisteredMeans | platforms/Cross/vm/sqTicker.c:106-116 | Unregistering removes exactly one entry, keeps the order of the others, and is map removal |
| SynchronousTicker.NeverRepeats | platforms/Cross/vm/sqTicker.c:106-135 | Whatever is registered, no function is ever entered twice |
| SynchronousTicker.OnlyNullSpoils | platforms/Cross/vm/sqTicker.c:118-121 | The list stays sound iff the function registered is not null |
| SynchronousTicker.CalledOnce | platforms/Cross/vm/sqTicker.c:150-155 | Each tickee is called at most once per check, exactly if it is due |
| HighPriorityTicker.Ticker.AddHighPriorityTickee | platforms/Cross/vm/sqTicker.c:174-215 | With complete checks in any gap between statements, the registry behaves as if the function were taken out at one moment and put in, with its own period and deadline, at a later one; the used count never falls; failure only with all four slots taken by others |
| HighPriorityTicker.Ticker.RemoveTickee | platforms/Cross/vm/sqTicker.c:178-192 | A removal takes effect at one moment, checks before and after it |
| HighPriorityTicker.Ticker.CheckHighPriorityTickees | platforms/Cross/vm/sqTicker.c:229-267 | A complete check calls each due function of the table exactly once and no other, whatever the holes, and moves the deadlines of exactly those, by the 10-second rule |
| HighPriorityTicker.BeatenTable | platforms/Cross/vm/sqTicker.c:245-261 | What a check makes of the table, on its fields: due functions, unchanged periods, and each new deadline by the 10-second rule |
| HighPriorityTicker.Ticker.CheckSlot | platforms/Cross/vm/sqTicker.c:246-261 | One slot: fires iff enabled and due; a called slot gets the clock plus its period beyond 10 seconds of lag, else a period more; no other slot changes |
| HighPriorityTicker.Ticker.FillSlot | platforms/Cross/vm/sqTicker.c:207-210 | Checks between the stores to a disabled slot neither see nor disturb it |
| HighPriorityTicker.Ticker.Enable | platforms/Cross/vm/sqTicker.c:211-213 | The function pointer, or for a new slot the count, makes the fully written slot live at one moment |
| HighPriorityTicker.KeepsItsTime | platforms/Cross/vm/sqTicker.c:229-261 | From its registration on, the timer of a function and the number of its calls are those of a timer alone, whatever happens to the other functions |
| HighPriorityTicker.DroppedIsSilent | platforms/Cross/vm/sqTicker.c:178-192 | A removed function is not called until it is registered again |
| HighPriorityTicker.CalledExactly | platforms/Cross/vm/sqTicker.c:245-261 | The slots of a registry call the due functions of its table, each once |
| TickeeExclusion.OneActivation | platforms/Cross/vm/sqTicker.c:245-260 | For any number of nested or concurrent checks, whatever they find, at most one activation of a slot is in progress, unless inProgress is cleared under it |
| TickeeExclusion.GuardedExactly | platforms/Cross/vm/sqTicker.c:245-260 | For any two or more checks anywhere: no second activation can be reached without clearing inProgress under a holder if and only if at most one check holds the slot and inProgress is set while one does |
| TickeeExclusion.ResetBreaksExclusion | platforms/Cross/vm/sqTicker.c:210 | In a guarded state clearing inProgress makes a second activation reachable if and only if some check holds the slot, whichever statement it is at |
| TickeeExclusion.ProvisoIsExact | platforms/Cross/vm/sqTicker.c:210-260 | So after every run from the start in which inProgress was never cleared under a holder |
| TickeeExclusion.ExclusionFails | platforms/Cross/vm/sqTicker.c:210 | For every slot a run from the start reaches two activations at once, what the checks find being free |
| TickeeRaces.CallsAreProper | platforms/Cross/vm/sqTicker.c:174-261 | With the heartbeat on other threads, every statement apart and times compared: as long as no slot is disabled under a check that can still call its function, every function called is registered and is called on its own deadline and period |
| TickeeRaces.WholeStep | platforms/Cross/vm/sqTicker.c:174-261 | Every statement of the VM thread or of a check, that one excepted, keeps each live slot all of one registration and each check consistent with its slot |
| TickeeRaces.TestsAre | platforms/Cross/vm/sqTicker.c:246-249 | The tests and the swap of a check, undisturbed, lead to the advance with inProgress set exactly if the slot is enabled, free and due, and to the next slot otherwise |
| TickeeRaces.AdvanceLeads | platforms/Cross/vm/sqTicker.c:251-257 | The advance, undisturbed, leads to the deadline of the 10-second rule |
| TickeeRaces.AdvanceIs | platforms/Cross/vm/sqTicker.c:251-257 | And this is so for the two statements of an advance taken in one go, no other slot changing |
| TickeeRaces.CallLeads | platforms/Cross/vm/sqTicker.c:258-259 | The call, undisturbed, is made on the function then in the slot, and clears inProgress |
| TickeeRaces.RegistrationIs | platforms/Cross/vm/sqTicker.c:204-213 | The stores of a registration, undisturbed, lead to the slot of that function, its period and now + period, not in progress, and a new slot is counted |
| TickeeRaces.RemovalIs | platforms/Cross/vm/sqTicker.c:186-189 | A removal is the store of null |
| TickeeRaces.DisablingExactly | platforms/Cross/vm/sqTicker.c:187-205 | At the store that disables a slot, an improper call becomes reachable if and only if some check has found the deadline reached and not called yet, or has found the function and its clock has reached the deadline |
| TickeeRaces.ProvisoIsExact | platforms/Cross/vm/sqTicker.c:187-205 | So after every clean run from the start |
| TickeeRaces.CallsAreTimely | platforms/Cross/vm/sqTicker.c:229-261 | If besides inProgress is never cleared under a holder, and no slot is released under a check that stands before its swap having found an older deadline reached, no call comes before its deadline and no tickee runs twice at once |
| TickeeRaces.PunctualStep | platforms/Cross/vm/sqTicker.c:229-261 | Every other statement keeps at most one holder a slot, and every deadline about to be advanced reached |
| TickeeRaces.ReleasingExactly | platforms/Cross/vm/sqTicker.c:249-259 | At the release of a slot, a call before its deadline becomes reachable if and only if some check stands so |
| TickeeRaces.TimelyProvisoIsExact | platforms/Cross/vm/sqTicker.c:249-259 | So after every careful run from the start |
| TickeeRaces.NullCallFromStart | platforms/Cross/vm/sqTicker.c:246-258 | A run from the start, one registration, one check and one removal, ends in a call of null |
| TickeeRaces.DoubleRunFromStart | platforms/Cross/vm/sqTicker.c:210 | A run from the start, one registration, two checks and one re-registration, has the tickee running twice at once |
| TickeeRaces.EarlyCallFromStart | platforms/Cross/vm/sqTicker.c:248-258 | A run from the start, one registration and two checks with one clock, calls the tickee a second time before its deadline |
| ModuleRegistry.SoundAlways | platforms/Cross/vm/sqNamedPrims.c:277-339 | Over every run of loads and unloads with every behaviour of the operating system and of the modules: names non-empty and distinct, every handle owned by exactly one entry or freed exactly once |
| ModuleRegistry.FoundAfterLoad | platforms/Cross/vm/sqNamedPrims.c:277-339 | After a load the module is found iff it was there or could be loaded; every other module is found as before and the old list is the end of the new one |
| ModuleRegistry.LoadDecides | platforms/Cross/vm/sqNamedPrims.c:208-315 | On the answers of the plugin: a load of an absent name adds its entry in front if and only if a handle came (FFI), or a handle or internal module did, setInterpreter accepted, initialiseModule did not refuse and the compiled name, if told, begins with the name; else the list is as it was and the handle is freed |
| ModuleRegistry.LoadOfKnown | platforms/Cross/vm/sqNamedPrims.c:321-339 | A load of a name already there, or of none, changes nothing |
| ModuleRegistry.NonFfiEntriesAccepted | platforms/Cross/vm/sqNamedPrims.c:208-315 | After any run an entry not loaded for the FFI comes from a load whose plugin accepted in each of these answers |
| ModuleRegistry.ListAfterUnload | platforms/Cross/vm/sqNamedPrims.c:521-556 | A refused unload leaves the list unchanged, any other removes exactly the entry of that name |
| ModuleRegistry.EveryEntryWasMade | platforms/Cross/vm/sqNamedPrims.c:277-315 | Every entry was put there by a load of the run that succeeded, and that load had the initializers accept if and only if it was not for the FFI |
| ModuleRegistry.AnsweredInitialised | platforms/Cross/vm/sqNamedPrims.c:321-339 | So a load, whatever it is for, is answered with an initialised module if and only if the module was not loaded for the FFI |
| ModuleRegistry.FfiLoadIsNotMadeUpFor | platforms/Cross/vm/sqNamedPrims.c:321-339 | A load for the FFI and then one not for it: the module answered was never initialised |
| ModuleRegistry.UnloadUndoesLoad | platforms/Cross/vm/sqNamedPrims.c:521-556 | Unloading what was just loaded restores the list and gives the handle back |
| ModuleRegistry.UnloadFrees | platforms/Cross/vm/sqNamedPrims.c:521-556 | An accepted unload removes one entry and frees exactly its handle; a refused one frees nothing |
| NamedPrims.ModuleList.FindLoadedModule | platforms/Cross/vm/sqNamedPrims.c:45-56 | Finds the entry of that name in the linked list, the VM for no name, null otherwise |
| NamedPrims.ModuleList.AddToModuleList | platforms/Cross/vm/sqNamedPrims.c:58-70 | Links one new entry in front |
| NamedPrims.ModuleList.RemoveFromList | platforms/Cross/vm/sqNamedPrims.c:77-92 | Unlinks exactly that entry; the others keep their order |
| NamedPrims.ModuleList.CallInitializersIn | platforms/Cross/vm/sqNamedPrims.c:208-255 | Succeeds iff setInterpreter exists and accepts, initialiseModule is absent or accepts, and getModuleName is absent or answers a name beginning with that of the module |
| NamedPrims.ModuleList.FindAndLoadModule | platforms/Cross/vm/sqNamedPrims.c:277-315 | Either one new entry in front owns the handle, or the list is as before and the handle was freed |
| NamedPrims.ModuleList.FindOrLoadModule | platforms/Cross/vm/sqNamedPrims.c:321-339 | Brings the linked list to exactly the registry the load specifies and answers an entry iff the module is there or can be loaded |
| NamedPrims.ModuleList.NotifyOthers | platforms/Cross/vm/sqNamedPrims.c:537-549 | Tells every other module with a hook, in list order |
| NamedPrims.NotifiedOnce | platforms/Cross/vm/sqNamedPrims.c:537-549 | Every other module with a hook is told exactly once, in list order, the one that goes never |
| NamedPrims.ToldMeans | platforms/Cross/vm/sqNamedPrims.c:537-549 | The places told are exactly those with a hook other than that of the module that goes, ascending |
| NamedPrims.ModuleList.IoUnloadModule | platforms/Cross/vm/sqNamedPrims.c:521-556 | False iff there is no name, no such module, or a shutdownModule of a module not loaded for the FFI that refuses; then the list, the freed handles and who was told are unchanged; else exactly that entry is gone, its handle freed and the others told |
| NamedPrims.ModuleList.UnloadFound | platforms/Cross/vm/sqNamedPrims.c:527-555 | The same for a module that was found, on its FFI mark and the answer of its shutdownModule |
| NamedPrims.ModuleList.IoListLoadedModule | platforms/Cross/vm/sqNamedPrims.c:613-639 | The n-th loaded module counted from 1: the name its getModuleName answers if there is one, else the name it was loaded under; none out of range |
| NamedPrims.FindInternalFunctionIn | platforms/Cross/vm/sqNamedPrims.c:133-176 | The first row, table order then row order, that names the function before the end of its table: its address and, if asked for, its accessor depth; None iff there is none |
| NamedPrims.HitMeans | platforms/Cross/vm/sqNamedPrims.c:133-176 | A row is found if and only if it has both names and no row up to it ends the table, that is has neither |
| UrlLedger.UnpackedExactly | platforms/Mac OS/vm/sqMacNSPlugin.c:500 | notifyData gives the id back if and only if the id is below 2^23, the handle always |
| UrlLedger.Unpacked | platforms/Mac OS/vm/sqMacNSPlugin.c:500-624 | What comes out of notifyData in 32-bit arithmetic: the handle, and the id as a signed 24-bit number |
| UrlLedger.FindsOnlyItsOwn | platforms/Mac OS/vm/sqMacNSPlugin.c:615-624 | Below 2^24 requests a notification matches a slot iff its own request is live there and its id is below 2^23 |
| UrlLedger.TableShowsLedger | platforms/Mac OS/vm/sqMacNSPlugin.c:483-681 | Over every run of create, complete, fail and destroy since initialisation the table of reused slots shows the ledger in which requests are never forgotten |
| UrlLedger.LateNotificationIgnored | platforms/Mac OS/vm/sqMacNSPlugin.c:615-671 | A completion or failure for a destroyed request changes nothing and signals nothing, whoever has the slot now |
| UrlLedger.LateNotificationsExactly | platforms/Mac OS/vm/sqMacNSPlugin.c:483-671 | For every n: over all runs of n requests late notifications change nothing, if and only if n is below 2^24 |
| UrlLedger.OwnNotificationHeard | platforms/Mac OS/vm/sqMacNSPlugin.c:615-671 | A live request hears its own notification iff its id is below 2^23 |
| UrlLedger.OutcomeIsFinal | platforms/Mac OS/vm/sqMacNSPlugin.c:632-668 | Success is final until destroy, and so is failure |
| UrlLedger.SignalsExact | platforms/Mac OS/vm/sqMacNSPlugin.c:632-641 | A request that succeeds signals exactly once, one that failed once for every notification, a later completion included |
| UrlLedger.ClipKeeps | platforms/Mac OS/vm/sqMacNSPlugin.c:625-627 | The file name stored is the one given up to 1000 characters, else its first 1000 |
| UrlLedger.RequestEndures | platforms/Mac OS/vm/sqMacNSPlugin.c:483-681 | A live request keeps handle, semaphore and the notes it heard until it is destroyed |
| UrlRequests.RequestTable.FindIdleURLRequest | platforms/Mac OS/vm/sqMacNSPlugin.c:603-613 | The first idle slot, -1 iff there is none |
| UrlRequests.RequestTable.URLRequestCreate | platforms/Mac OS/vm/sqMacNSPlugin.c:483-506 | The first idle slot gets the next id, in progress, with that semaphore; -1 and no change without an instance or an idle slot; exactly one creation of the specified system |
| UrlRequests.PackedIs | platforms/Mac OS/vm/sqMacNSPlugin.c:500 | notifyData is id * 256 + handle as a signed 32-bit number |
| UrlRequests.RequestTable.URLRequestCompleted | platforms/Mac OS/vm/sqMacNSPlugin.c:615-643 | Marks the slot whose id matches succeeded unless it has failed, stores the file name, and signals its semaphore once iff it had not succeeded; exactly the specified effect |
| UrlRequests.RequestTable.URLRequestFailed | platforms/Mac OS/vm/sqMacNSPlugin.c:645-671 | Marks the slot whose id matches failed and signals its semaphore once iff it had not succeeded; exactly the specified effect |
| UrlRequests.RequestTable.URLRequestDestroy | platforms/Mac OS/vm/sqMacNSPlugin.c:559-577 | Blanks exactly that slot and deletes its file if it had one |
| UrlRequests.RequestTable.URLRequestStatus | platforms/Mac OS/vm/sqMacNSPlugin.c:592-601 | After any run: 3 if the first notification of the live request of that handle was a completion, 2 if a failure, 1 if there was none; -1 iff out of range or idle |
| UrlRequests.RequestTable.InitURLRequestTable | platforms/Mac OS/vm/sqMacNSPlugin.c:673-681 | Whatever the table held, the initial table |
| EventQueue.NothingLostIffNeverFull | platforms/Mac OS/vm/sqMacUIEvents.c:524-555 | The image gets the input with each repeat of a mouse event removed, in order, if and only if no event was recorded while the buffer was full |
| EventQueue.EachOverflowLosesOne | platforms/Mac OS/vm/sqMacUIEvents.c:738-755 | Every event recorded while the buffer is full costs exactly one event, a dropped repeat included |
| EventQueue.OrderIsKept | platforms/Mac OS/vm/sqMacUIEvents.c:738-755 | However often it overflows, what the image gets is the input in order with some events left out |
| EventRing.Ring.constructor | platforms/Mac OS/vm/sqMacUIEvents.c:105-107 | An empty buffer with the all-zero previous mouse event; nothing recorded or taken |
| EventRing.Ring.NextEventPut | platforms/Mac OS/vm/sqMacUIEvents.c:738-748 | A FIFO of n - 1 events that drops its oldest on overflow; the slot handed out is the newest event |
| EventRing.Ring.Record | platforms/Mac OS/vm/sqMacUIEvents.c:738-748 | Exactly one put of the specified queue |
| EventRing.Ring.IgnoreLastEvent | platforms/Mac OS/vm/sqMacUIEvents.c:750-755 | Takes the newest event back; on an empty buffer it brings back n - 1 stale events |
| EventRing.Ring.PutThenIgnore | platforms/Mac OS/vm/sqMacUIEvents.c:738-755 | The identity unless the buffer was full, when exactly the oldest event is dropped |
| EventRing.Ring.RecordMouseEvent | platforms/Mac OS/vm/sqMacUIEvents.c:524-555 | Exactly one mouse step of the specified queue: put, or drop as a repeat of the previous mouse event in buttons, x, y and modifiers |
| EventRing.ReportReadsBack | platforms/Mac OS/vm/sqMacUIEvents.c:524-555 | The event of a report holds its time, place and window, and the eleven bits of its state can be read back from buttons and modifiers |
| EventRing.TwoReports | platforms/Mac OS/vm/sqMacUIEvents.c:524-555 | With room, two reports in a row leave one event exactly when the second is no wheel event and place and state agree |
| EventRing.Ring.RecordMouseEventCarbon | platforms/Mac OS/vm/sqMacUIEvents.c:1812-1872 | The same under Carbon: reserved1 is zero and a wheel event is never taken back |
| EventRing.Ring.IoGetNextEvent | platforms/Mac OS/vm/sqMacUIEvents.c:763-800 | Without Carbon events: exactly one take, an empty buffer first letting the system record plain events and mouse reports; false iff the buffer is then empty |
| EventRing.Ring.IoGetNextEventCarbon | platforms/Mac OS/vm/sqMacUIEvents.c:763-800 | With Carbon events, whatever others record before each event it takes: handles internal events in order, returns the first other one, false only with an empty buffer, and terminates |
| SegmentMemory.RoundUpExact | platforms/Mac OS/vm/sqMacMemory.c:36-39 | Rounding up is not below the value if and only if the value is at most 2^32 - pageSize: the 32-bit mask truncates beyond |
| SegmentMemory.RoundingIs | platforms/Mac OS/vm/sqMacMemory.c:36-39 | Up to 2^32 - pageSize the size in use is the least multiple of the page size that holds the request |
| SegmentMemory.AndPageMaskExact | platforms/Mac OS/vm/sqMacMemory.c:39 | Bit by bit, the 32-bit mask takes the offset in the page off the low 32 bits, for every page size |
| SegmentMemory.AndBitsBetween | platforms/Mac OS/vm/sqMacMemory.c:59 | Masking with 2^n - 2^k keeps exactly bits k to n - 1 |
| SegmentMemory.Segments.MapAbove | platforms/Mac OS/vm/sqMacMemory.c:169-182 | The loop: every mapping below the address asked for is unmapped, and the address rises by the size until the end of the address space |
| SegmentMemory.RejectsEach | platforms/Mac OS/vm/sqMacMemory.c:169-182 | Each mapping rejected was the answer to the minimum raised by the size once for each one before it, and lay below what was asked |
| SegmentMemory.OfferIs | platforms/Mac OS/vm/sqMacMemory.c:169 | What is asked of mmap: the rounded address and the size |
| SegmentMemory.Segments.SqAllocateMemorySegmentOfSizeAboveAllocatedSizeInto | platforms/Mac OS/vm/sqMacMemory.c:158-183 | A non-null answer is at or above the requested minimum and is the only mapping kept; null keeps none and means mmap failure, zero size or end of the address space; up to 2^32 - pageSize the allocated size is a multiple of the page size, at least the size and less than a page above it |

## Left out

- Weak memory: statements take effect one at a time in a single order; fences have no effect in the model, compare-and-swap and atomic add are one step each.
- The interrupt check itself: `Check` clears the forced mark and enters the responder, as the interpreter's event check does; its early exit when a context switch is not allowed is not modelled.
- SignalDelivery.NoLostSignal: says nothing of indices at or above the table size the responder is given, which the clamp excludes, and holds that size and the table fixed; growing the table while requests are live is start-up only by the source's own comment.
- ExternalSemaphores.SignalTable.SetMaxExtSemTableSize: for sizes up to 2^30, above which the shift in the source overflows; allocation does not fail.
- ExternalSemaphores.SignalTable.DoSignalExternalSemaphores: lines 257-258 cannot act without interference, so the object has no such branch; the protocol has it.
- Assertions in signalSemaphoreWithIndex, which the source says may fail in normal operation, and the index assertion before the range test.
- HeapMap32.HeapMap.HeapMapAtWord and the other heap map accesses: `error` and the exit on a failed allocation are outcomes after which nothing has changed; whether an allocation succeeds is a parameter.
- HeapMap32.HeapMap.HeapMapAtWordPut: the read-modify-write of one byte is one assignment.
- SynchronousTicker.Ticker.AddSynchronousTickee: running out of slots is an answer instead of `error`; says nothing of the table after a division by zero; the three stores to a slot are one.
- TickerDeadlines.CatchUpExactly: the 64-bit clock and deadlines do not wrap.
- HighPriorityTicker.Ticker.AddHighPriorityTickee: checks that interrupt it run to completion; checks suspended half way are the subject of TickeeExclusion and TickeeRaces. Running out of slots ends the call.
- TickeeExclusion.GuardedExactly: what checks find in use and due is free, so reachability is that of the exclusion protocol alone; TickeeRaces.DoubleRunFromStart shows a double activation with registrations and times.
- TickeeRaces.CallsAreProper: which slot the search of the VM thread finds is left to the schedule, and the tests of that search, which only the VM thread's own stores affect, are not steps; registrations whose period converts to zero are excluded.
- Tickees that edit the tables while they run, the yielding between heartbeat and VM thread, and the platform heartbeats.
- NamedPrims.ModuleList.FindOrLoadModule: the operating system and the module's own functions are parameters; a null and an empty name are the same; plugin functions that call back into the registry, the PharoVM switch and the 255-character entry points are not modelled.
- NamedPrims.FindInternalFunctionIn: the accessor depth, a byte hidden after the function's name, is a field of its row; asking for it with no function name, which would follow a null pointer, is excluded.
- Looking functions up in shared libraries, ioShutdownAllModules and ioListBuiltinModule, which change nothing or only call out.
- UrlLedger.TableShowsLedger: for fewer than 2^24 requests since initialisation; LateNotificationsExactly shows why. nextRequestID does not overflow.
- UrlRequests.RequestTable.URLRequestCreate: what the network layer does with notifyData comes later as notifications in any order and number; URLPostCreate and NPP_StreamAsFile, which break the protocol of the table, are left out, so buffers are only ever null.
- EventRing.Ring.IoGetNextEventCarbon: recording and taking are each one step, as the lock makes them; the full-screen update and the post-processing hook are not modelled.
- EventRing.Ring.RecordMouseEvent: the coordinate conversion and the clock are parameters.
- Keyboard recording, the key map, the recorders of anything but mouse events (one or more puts each, the keystrokes made up for a wheel event included), button polling.
- SegmentMemory.Segments.SqAllocateMemorySegmentOfSizeAboveAllocatedSizeInto: with pageSize and pageMask initialised as sqAllocateMemoryMac does; the lazy initialisation rounds before it initialises and sets a different mask. The file's other functions are one system call each.
- Unmapping that fails is only reported by the source and counts as done.
- The interpreter, the JIT, the garbage collector, Carbon windows, clipboard, preferences, browser pipes, file and image input and output.
