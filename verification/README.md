# Verified models of the device tree's algorithms and protocols

This project models, in Dafny, the parts of the repository that are algorithms and protocols rather
than configuration, and proves what they are relied on for:

- **Boyer-Moore search** (`recovery/recovery_updater.cpp`): both shift tables, filled by the loops of
  the original, and the scan that skips by them. Soundness and termination for every non-empty
  pattern; exactly which patterns are never missed in any text.
- **Timer service** (`gps/utils`): the rank heap as linked nodes and as a value, the message task, the
  poll thread and the clients as interleaving steps over it (no lost wakeup, no use after free, the
  life of each delegate, who is called back for what), the doubly linked list, the message queue, and the thread object's
  reference count.
- **AGPS resource state machine** (`gps/loc_api/libloc_api_50001/loc_eng_agps.*`): the four states, the
  subscriber list, the traffic to the framework and what each subscriber is told, over every sequence
  of events.
- **Printers, parsers and indexes**: camera parameter strings and sizes, vendor tag descriptors and
  their parcels, bounded percent-encoding (section 2.1 of RFC 3986), and GSV pagination.

Code that changes things in place is modelled as it is written: arrays filled by loops, linked objects
relinked and swapped, classes whose methods update their fields. Each such method is proved equal to a
function of the old state, and the theorems are proved of those functions; what such a function computes is
also said without it, by positions, by an independent reader, or over whole runs. Protocols with several
threads are step systems: one step is one access to shared state or one critical section, and the
theorems hold for every sequence of steps.

## Where the code does not do what its comments say

- `bm_make_delta2` records `p + 1` where the prefix it has just compared starts at `p`
  (`recovery/recovery_updater.cpp:76-77`). A pattern with a border can be overshot: "aba" is not found in
  "acaba" (`BoyerMoore.MissedOccurrence`). `BoyerMoore.CompleteExactlyWhen` gives the condition for every
  pattern, a position without a strong shift whose first prefix match is a border beyond it; among patterns
  without a NUL the ones searched for correctly are those that have no border and the runs of one
  character (`BoyerMoore.NulFreeOvershootsExactlyWhen`). The one pattern it is called with has no border.
- The branch of `updateSoonestTime` that stops polling and disarms the timer when the heap is empty
  (`gps/utils/LocTimer.cpp:288-294`) is never taken: every caller passes NULL once the heap can be empty,
  and NULL equals the empty heap's top (`LocTimerRuns.NeverDisarmedByTheTask`).
- `LocTimerDelegate::expire` reads its client before it takes the client's lock
  (`gps/utils/LocTimer.cpp:519-521`). A client that stops its timer and starts another in between has the
  new one stopped and is called back for it at once, which a run shows
  (`LocTimerRuns.RestartedTimerIsCalledBackEarly`); that happens if and only if the client stops its timer in
  between and its last call there is a start (`LocTimerCallbacks.WhoIsCalledBack`).
- An expire message pops its first timer whatever the time (`gps/utils/LocTimer.cpp:360-364`). When the timer
  that it was sent for is removed before it is processed, it takes the next one: a run in which a timer of a
  hundred seconds expires after one (`LocTimerProgress.LaterTimerIsCalledBackEarly`; for every state,
  `LocTimerProgress.StaleExpiryTakesTheNext`; exactly when, `LocTimerProgress.EarlyPopExactlyWhen`).
- `addSubscriber` does not make a listed subscriber active again
  (`gps/loc_api/libloc_api_50001/loc_eng_agps.cpp:738-748`). A WIFI subscriber that subscribes again before
  its close completes is told that the resource is released, and nothing is asked for on its behalf
  (`AgpsEffects.EarlyReturnIsLost`; exactly when, `AgpsEffects.SubscribedIsActiveExactlyWhen`).
- A thread that has not read `mRunnable` when `stop()` clears it never deletes the runnable
  (`LocThread.LeakIsReachable`, `LocThread.LeakIsFinal`), and `start()` returns false although a thread
  ran and deleted the runnable when the thread ends before `create()` looks
  (`LocThread.FalseStartIsReachable`, `LocThread.RunnableFate`; compare the comment at
  `gps/utils/LocThread.h:66-73`).
- `createFromParcel` does not undo `writeToParcel` for every descriptor. When a tag was announced twice the
  count written is that of the announcements and the tags written are those held, so the parcel cannot be
  read (`VendorTagOps.RepeatedTagIsUnreadable`). When tags that share both names are announced greatest
  first, the descriptor read back looks up another tag (`VendorTagOps.SwappedTagsAreConfused`). The exact
  conditions are `VendorTagParcels.RoundTripExactlyWhen` and `VendorTagOps.OpsRoundTrip`.
- `writeToParcel` forgets a failed write of a tag once the sections are written: it returns OK and the parcel
  is short (`VendorTagWrites.FailureIsForgotten`; exactly when, `VendorTagWrites.OkExactlyWhen`).
- The checks of `snprintf`'s length in the GSV loops never fail, whatever the report says
  (`NmeaGsv.SentencesFit`). Adding 0.5 before the cast to int rounds to the nearest integer only from -0.5 up
  (`NmeaGsvText.RoundedIs`).

## Layout

| files | what |
|---|---|
| `BoyerMoore.dfy` | search, tables, completeness |
| `HeapTree.dfy`, `LocHeap.dfy` | the heap as a value; the linked nodes that compute it |
| `LocTimer.dfy`, `LocTimerRuns.dfy`, `LocTimerCallbacks.dfy` | timer steps and invariants; runs; who is called back for what |
| `LocTimerProgress.dfy`, `LocTimerExpiry.dfy` | what undisturbed threads get done; a whole expire message |
| `LocTimerContainer.dfy`, `LocTimerClient.dfy` | the container object; client and delegate objects |
| `LinkedList.dfy`, `MsgQueue.dfy`, `LocThread.dfy` | list, queue, thread object |
| `Agps.dfy`, `AgpsRuns.dfy`, `AgpsEffects.dfy`, `AgpsStateMachine.dfy` | the machine as a value; runs; what each event does; the object and its loops |
| `KeyedVectors.dfy`, `CStrings.dfy`, `Selections.dfy`, `Wrappers.dfy` | sorted vectors, C strings, the wanted part of a sequence, Option |
| `FlatParams.dfy`, `CameraParameters.dfy` | camera parameter strings; the object |
| `VendorTags.dfy`, `VendorTagParcels.dfy`, `VendorTagGrammar.dfy`, `VendorTagWrites.dfy`, `VendorTagOps.dfy`, `VendorTagDescriptor.dfy` | indexes; parcels; exactly which are read; writes that fail; building from operations; the object |
| `UrlEscape.dfy`, `NmeaGsv.dfy`, `NmeaGsvText.dfy` | percent-encoding; GSV sentences; reading them back |

## Model

| member | source | states |
|---|---|---|
| BoyerMoore.MaxSuffixLen | recovery/recovery_updater.cpp:45-53 | the length of the longest common suffix of the pattern and of its part that ends at p, as far as p reaches: equal up to it, different or at the start beyond it |
| BoyerMoore.MakeDelta1 | recovery/recovery_updater.cpp:58-67 | the table filled in place holds, for every character, the distance from the last position to its last earlier occurrence |
| BoyerMoore.Delta1Is | recovery/recovery_updater.cpp:58-67 | an entry leads to the last earlier occurrence of its character and past none, or past the whole pattern |
| BoyerMoore.MakeDelta2 | recovery/recovery_updater.cpp:70-89 | the table filled in place holds, for every position, the least strong shift if there is one and the recorded prefix otherwise |
| BoyerMoore.PrefixPass | recovery/recovery_updater.cpp:71-80 | the first loop leaves the recorded prefix of every position |
| BoyerMoore.SuffixPass | recovery/recovery_updater.cpp:82-88 | the second loop's overwrites leave exactly the least strong shift where one exists |
| BoyerMoore.Delta2Is | recovery/recovery_updater.cpp:70-89 | an entry is the least strong shift; without one, one more than the first position from there on whose rest is a prefix; without that, the last position |
| BoyerMoore.StrncmpExactlyWhen | recovery/recovery_updater.cpp:76 | the comparison finds equal exactly what agrees to the end or up to a NUL |
| BoyerMoore.OneStrongShift | recovery/recovery_updater.cpp:84-86 | a given shift is strong for at most one position, the one that the suffix length points at |
| BoyerMoore.TablesAreMoving | recovery/recovery_updater.cpp:91-118 | for every non-empty pattern each jump moves the window right, and table entries stay below twice the pattern length |
| BoyerMoore.CompareBackwards | recovery/recovery_updater.cpp:106-110 | the inner loop stops at the rightmost disagreement of window and pattern |
| BoyerMoore.ScanTables | recovery/recovery_updater.cpp:104-117 | for any moving tables the outer loop ends without an index out of range and returns what the scan function gives |
| BoyerMoore.WindowMoves | recovery/recovery_updater.cpp:104-117 | below the rightmost mismatch the window moves as far as the farther of the two tables says |
| BoyerMoore.Search | recovery/recovery_updater.cpp:91-118 | any offset returned is a true occurrence, for every non-empty pattern; the leftmost one, and none only if there is none, for every pattern that does not overshoot |
| BoyerMoore.Delta1IsSafe | recovery/recovery_updater.cpp:58-67 | a jump by the first table never passes an occurrence |
| BoyerMoore.Delta2IsSafe | recovery/recovery_updater.cpp:70-89 | a jump by the second table never passes an occurrence, for every pattern that does not overshoot |
| BoyerMoore.JumpIsSafe | recovery/recovery_updater.cpp:114 | nor does the greater of the two |
| BoyerMoore.ScanIsFirst | recovery/recovery_updater.cpp:104-117 | the scan from any window finds the first occurrence from there, and none exactly when there is none |
| BoyerMoore.MissedOccurrence | recovery/recovery_updater.cpp:76-79 | "aba" occurs in "acaba" at offset 2 and is not found |
| BoyerMoore.BorderMakesDelta2Overshoot | recovery/recovery_updater.cpp:74-88 | where there is no strong shift and the first prefix match is a border beyond the position, the jump is one past the alignment that border allows |
| BoyerMoore.BadTextIsMissed | recovery/recovery_updater.cpp:70-118 | for every such position a text in which an occurrence is missed |
| BoyerMoore.CompleteExactlyWhen | recovery/recovery_updater.cpp:45-118 | a non-empty pattern is searched for correctly in all texts if and only if it has no such position |
| BoyerMoore.NulFreeOvershootsExactlyWhen | recovery/recovery_updater.cpp:70-89 | a NUL-free pattern has none if and only if it is border-free or a run of one character |
| BoyerMoore.VersionStringIsFound | recovery/recovery_updater.cpp:37-139 | the version string that the updater looks for is found first, or reported absent, correctly in every text |
| HeapTree.CheckNodesIsHealthy | gps/utils/LocHeap.cpp:197-220 | the self-check accepts exactly the trees with right sizes in heap order |
| HeapTree.TopIsHighest | gps/utils/LocHeap.cpp:101-106 | no element of a heap outranks its top |
| HeapTree.PushKeeps | gps/utils/LocHeap.cpp:107-124 | push keeps order and sizes, adds exactly the new element, and changes the top only for one that outranks it |
| HeapTree.PopKeeps | gps/utils/LocHeap.cpp:134-164 | pop keeps order and sizes and takes out exactly the top |
| HeapTree.PopPromotes | gps/utils/LocHeap.cpp:134-164 | the higher child comes up, of equals the right one, and the other side stays as it is |
| HeapTree.RemoveKeeps | gps/utils/LocHeap.cpp:170-193 | removal succeeds if and only if the element is there, despite the rank pruning, and then takes out exactly it |
| HeapTree.RemoveFromKeeps | gps/utils/LocHeap.cpp:256-268 | the same for a heap that may be empty; only removing the top changes the top |
| HeapTree.PushKeepsBalance | gps/utils/LocHeap.cpp:107-124 | push keeps the left side as large as the right or larger by one, at every node |
| HeapTree.BalancedIsShallow | gps/utils/LocHeap.cpp:101-106 | such a tree has height at most floor(log2 n) + 1 |
| HeapTree.BuiltHeap | gps/utils/LocHeap.cpp:107-124 | a heap built by pushes holds exactly what was pushed, in order, with that height |
| HeapTree.PopAllDelivers | gps/utils/LocHeap.cpp:245-254 | popping a heap empty delivers each element once |
| HeapTree.PopAllSorts | gps/utils/LocHeap.cpp:245-254 | and none that outranks an earlier one |
| LocHeapClass.LocHeapNode.KeepHigher | gps/utils/LocHeap.cpp:108-111 | the data stay or are swapped so that the higher ranked stays here |
| LocHeapClass.LocHeapNode.PushNode | gps/utils/LocHeap.cpp:107-124 | relinking and swapping in place computes the value push, and the heap gains exactly the pushed node |
| LocHeapClass.LocHeapNode.SwapWith | gps/utils/LocHeap.cpp:88-92 | two nodes exchange their data and nothing else |
| LocHeapClass.LocHeapNode.PopNode | gps/utils/LocHeap.cpp:134-164 | computes the value pop; the node detached was a leaf of the old tree and now carries the old top's data |
| LocHeapClass.LocHeapNode.RemoveNode | gps/utils/LocHeap.cpp:170-193 | computes the value removal; the node detached carries the removed data |
| LocHeapClass.LocHeap.Push | gps/utils/LocHeap.cpp:228-235 | the heap object's contents become the value push |
| LocHeapClass.LocHeap.Peek | gps/utils/LocHeap.cpp:237-243 | the top's data, if any |
| LocHeapClass.LocHeap.Pop | gps/utils/LocHeap.cpp:245-254 | returns the old top's data and leaves the value pop |
| LocHeapClass.LocHeap.Remove | gps/utils/LocHeap.cpp:256-268 | returns the element exactly when it was in the heap, and leaves the value removal |
| LocTimer.FutureTime | gps/utils/LocTimer.cpp:546-553 | the expiry is exactly the requested milliseconds after now, with normalized nanoseconds |
| LocTimer.StepKeepsWake | gps/utils/LocTimer.cpp:281-390 | every step keeps: armed for the top, or expiry under way, or the message task about to update |
| LocTimer.ExpireLeavesOnlyLaterTimers | gps/utils/LocTimer.cpp:360-374 | the expire loop stops only when every timer left has tv_sec later than now, and only its first pop may take such a timer |
| LocTimer.StepKeepsLife | gps/utils/LocTimer.cpp:310-575 | every step keeps the invariant that ties heap, queue, clients and freed delegates together |
| LocTimerRuns.StepKeepsInv | gps/utils/LocTimer.cpp:281-575 | the whole invariant is kept by every step of client, task, poll thread and clock |
| LocTimerRuns.NoLostWakeup | gps/utils/LocTimer.cpp:281-381 | in every interleaving, timers ticking between two messages are polled and armed for the top's expiry, or an expire message is queued or being sent |
| LocTimerRuns.NeverDisarmedByTheTask | gps/utils/LocTimer.cpp:285-294 | the branch that stops polling on an empty heap is never taken |
| LocTimerRuns.LifeOverEveryRun | gps/utils/LocTimer.cpp:310-350 | over every run each delegate is pushed, then removed once, then freed once, and a stopped one has its remove under way |
| LocTimerRuns.NoUseAfterFree | gps/utils/LocTimer.cpp:485-527 | no step dereferences a freed delegate, and none is in the heap, in a queued message or with a client |
| LocTimerCallbacks.TimersAfter | gps/utils/LocTimer.cpp:542-575 | while other threads run, a client has a timer if and only if its last call was a start, or it made none and had one; the same timer unless it stopped it, and otherwise a new one |
| LocTimerCallbacks.WhoIsCalledBack | gps/utils/LocTimer.cpp:515-527 | whatever other threads do between expire's look at mClient and its stop: the client is called back for this delegate if and only if it does not stop in between, for a newer one if and only if it stops and starts last, for none if and only if it stops last |
| LocTimerCallbacks.CallbacksOverEveryRun | gps/utils/LocTimer.cpp:515-575 | over every run each callback follows the removal of a delegate started by that client, and no delegate is called back for twice |
| LocTimerCallbacks.StoppedIsNeverCalledBack | gps/utils/LocTimer.cpp:485-527 | a delegate that its client stops is never called back for, however the run goes on |
| LocTimerRuns.RestartedTimerIsCalledBackEarly | gps/utils/LocTimer.cpp:515-527 | a run in which a client that restarts its timer during the expiry is called back for the new one before its time |
| LocTimerProgress.StartDoes | gps/utils/LocTimer.cpp:542-560 | a start queues the push of a new delegate that expires exactly the milliseconds from now, for a client without a timer only |
| LocTimerProgress.PushIsProcessed | gps/utils/LocTimer.cpp:317-321 | a push message puts the timer into the heap and sets the fd for the new top, if there is one, and only then |
| LocTimerProgress.RemoveIsProcessed | gps/utils/LocTimer.cpp:334-350 | a remove message takes the timer out, sets the fd for the next one if it was the top, and deletes the delegate |
| LocTimerProgress.PollDelivers | gps/utils/LocTimer.cpp:376-380 | the poll thread wakes up exactly when the armed time has come, and then disarms, stops polling and sends an expire message |
| LocTimerProgress.DueIsCalledBack | gps/utils/LocTimer.cpp:281-527 | in every reachable state in which the message task and the poll thread wait and the top is due, four steps of each call its client back |
| LocTimerProgress.StaleExpiryTakesTheNext | gps/utils/LocTimer.cpp:334-374 | an expire message queued behind the removal of its timer calls back for the next one, whatever the time |
| LocTimerProgress.EarlyPopExactlyWhen | gps/utils/LocTimer.cpp:360-374 | a timer whose second has not come is popped if and only if it is the first of an expire message and the top is that late |
| LocTimerProgress.LaterTimerIsCalledBackEarly | gps/utils/LocTimer.cpp:334-380 | a run in which a timer of a hundred seconds expires after one |
| LocTimerExpiry.UpdateIsCarriedOut | gps/utils/LocTimer.cpp:281-306 | the steps that carry out the decision leave the fd as the method does |
| LocTimerExpiry.ExpireMessageDoes | gps/utils/LocTimer.cpp:360-374 | an expire message, undisturbed, expires the top and then those that are due, calls the clients they still have back in that order, and leaves the rest with the fd set for its top: what ProcExpire computes |
| LocTimerContainerClass.LocTimerContainer.UpdateSoonestTime | gps/utils/LocTimer.cpp:281-306 | the fd is left alone, cleared, or set for the top, as the step system decides |
| LocTimerContainerClass.LocTimerContainer.ProcPush | gps/utils/LocTimer.cpp:317-321 | the heap gains the timer; the fd is polled and armed for the top if that has changed, and untouched if not |
| LocTimerContainerClass.LocTimerContainer.ProcRemove | gps/utils/LocTimer.cpp:334-346 | the heap loses the timer; the fd is polled and armed for the next one if it was the top and there is one, and untouched if not |
| LocTimerContainerClass.LocTimerContainer.PopIfOutRanks | gps/utils/LocTimer.cpp:383-390 | pops the top exactly when its second has come |
| LocTimerContainerClass.LocTimerContainer.ProcExpire | gps/utils/LocTimer.cpp:360-374 | the loop expires the timers of the value split, in order, and leaves the rest with the fd polled and armed for its top, or untouched if none is left |
| LocTimerContainerClass.ExpireSplits | gps/utils/LocTimer.cpp:360-374 | expired and remaining timers are exactly the old ones; what remains is later, all but the first expired were due, and they expire in the order of their rank |
| LocTimerClient.LocTimer.Start | gps/utils/LocTimer.cpp:542-560 | a client without a timer gets a new delegate for exactly the requested expiry, and its push message is queued; one with a timer is refused, with nothing changed |
| LocTimerClient.LocTimer.Stop | gps/utils/LocTimer.cpp:562-575 | succeeds exactly when there was a timer, which forgets client and container and has its remove message queued |
| LocTimerClient.LocTimerDelegate.constructor | gps/utils/LocTimer.cpp:475-482 | a new delegate is at once queued to be pushed |
| LocTimerClient.LocTimerDelegate.DestroyLocked | gps/utils/LocTimer.cpp:485-501 | the remove message is sent the first time only |
| LocTimerClient.LocTimerDelegate.Expire | gps/utils/LocTimer.cpp:515-527 | the client is called back once if and only if it had a timer, which is then stopped |
| LinkedListClass.LinkedList.Add | gps/utils/linked_list.c:110-155 | prepends one item, or fails with the list unchanged |
| LinkedListClass.LinkedList.Remove | gps/utils/linked_list.c:162-204 | takes the last item, or reports a missing list, a missing place for the item, or an empty list |
| LinkedListClass.LinkedList.Empty | gps/utils/linked_list.c:211-223 | 1 or 0 for an empty list or not, and an error number, which counts as true, for a missing one |
| LinkedListClass.LinkedList.Flush | gps/utils/linked_list.c:230-260 | empties the list and deallocates each element that has a deallocator once, from the head |
| LinkedListClass.DeallocatedOnceEach | gps/utils/linked_list.c:246-249 | what a flush deallocates are the data of exactly the items with a deallocator, once each and in list order |
| LinkedListClass.LinkedList.Search | gps/utils/linked_list.c:267-327 | reports a missing list or comparison; finds the first match, hands it out if asked, and removes exactly it if asked, deallocating only what is not handed out |
| LinkedListClass.LinkedList.Unlink | gps/utils/linked_list.c:298-310 | rewriting the neighbours' pointers takes one element out and keeps the order of the rest |
| MsgQueue.MsgQ.Snd | gps/utils/msg_q.c:185-221 | accepts a message at the head unless the queue or the message is missing or the queue is unblocked |
| MsgQueue.MsgQ.TakeOrBlock | gps/utils/msg_q.c:256-262 | waits exactly while the list is empty and not unblocked; otherwise takes the last element |
| MsgQueue.MsgQ.Rcv | gps/utils/msg_q.c:228-269 | reports a missing queue, a missing place for the message, and an unblocked queue at once; otherwise the same |
| MsgQueue.MsgQ.Flush | gps/utils/msg_q.c:276-299 | empties the list and deallocates what was in it, if there is a queue |
| MsgQueue.MsgQ.Unblock | gps/utils/msg_q.c:306-336 | marks the queue once; a second call, or a missing queue, is told so |
| MsgQueue.StepKeepsInv | gps/utils/msg_q.c:185-336 | every step keeps the order of messages and the count of awake receivers; once unblocked, nothing is accepted |
| MsgQueue.FifoOverEveryRun | gps/utils/msg_q.c:185-336 | in every interleaving what left, followed by what waits, is what was accepted, in order; and no receiver sleeps through a message |
| MsgQueue.UnblockAndFlushEndIt | gps/utils/msg_q.c:276-336 | after unblock nothing is accepted and no receiver is left asleep, and a final flush takes exactly the undelivered rest |
| MsgQueue.AcceptedIsSent | gps/utils/msg_q.c:185-221 | over every run exactly the messages sent before the first unblock are accepted, once each and in order |
| MsgQueue.TakeDoes | gps/utils/msg_q.c:256-262 | a receiver takes the oldest message, or sleeps, or, once unblocked, returns with an error |
| MsgQueue.WakeupsDo | gps/utils/msg_q.c:213-330 | a send wakes the waiter it signals, unblock all of them |
| MsgQueue.WokenReturns | gps/utils/msg_q.c:256-330 | a receiver woken by unblock returns, with the oldest message while there are any and with UNAVAILABLE_RESOURCE after that |
| MsgQueue.ReceivesOverEveryRun | gps/utils/msg_q.c:228-330 | over every run each receive has returned once or still waits; the messages returned are those delivered, in order; an error is returned only by an unblocked queue |
| LocThread.StepKeepsInv | gps/utils/LocThread.cpp:65-202 | every step of parent or spawned thread keeps the count, start and runnable invariants |
| LocThread.FreedOnceAndNotTouchedAfter | gps/utils/LocThread.cpp:111-202 | the count is the number of sides still to call destroy, and its test there never fails; the delegate is deleted once, by the last, and not used afterwards |
| LocThread.RunnableFate | gps/utils/LocThread.cpp:111-202 | the runnable is deleted at most once and not used afterwards; exactly when it is deleted |
| LocThread.JoinableIsWaitedFor | gps/utils/LocThread.cpp:130-146 | before it gives up a joinable thread the parent has stopped it and waited for its end; for a detached one it never waits |
| LocThread.RunsAsItAsks | gps/utils/LocThread.cpp:171-202 | prerun() first, run() again only after it asked for that, postrun() last and only once run() asked for no more; when nobody stops the thread, all of it to the end |
| LocThread.ClearedMeansNoMoreCalls | gps/utils/LocThread.cpp:130-202 | once mRunnable is NULL no further call begins |
| LocThread.FalseStartIsReachable | gps/utils/LocThread.cpp:111-218 | a run in which start() returns false although the thread ran and deleted the runnable |
| LocThread.LeakIsReachable | gps/utils/LocThread.cpp:130-146 | a stop before the thread's first read leaves the runnable with nobody |
| LocThread.LeakIsFinal | gps/utils/LocThread.cpp:175-202 | and then no run deletes it |
| Agps.EqualsIsEquivalence | gps/loc_api/libloc_api_50001/loc_eng_agps.cpp:106-113 | among subscribers that the source can compare, equality of the two kinds is one equivalence |
| AgpsEffects.EqualsIsSameAddress | gps/loc_api/libloc_api_50001/loc_eng_agps.cpp:106-113 | it is having the same address, the IPv6 one for a BIT subscriber without an IPv4 one |
| Agps.LeaveKeepsInv | gps/loc_api/libloc_api_50001/loc_eng_agps.cpp:341-350 | a subscriber that unsubscribes turns inactive or leaves; no other one is touched, and the list stays in order |
| AgpsRuns.StepKeepsInv | gps/loc_api/libloc_api_50001/loc_eng_agps.cpp:258-579 | every event keeps: Released means an empty list, no equal subscribers, at most one if single; and without a drop Pending and Acquired have an active, Releasing an inactive one |
| AgpsRuns.StepKeepsPopulatedExactlyWhen | gps/loc_api/libloc_api_50001/loc_eng_agps.cpp:258-579 | the latter fails after an event if and only if that is a drop in a state other than Released |
| AgpsRuns.PopulatedThroughoutExactlyWhen | gps/loc_api/libloc_api_50001/loc_eng_agps.cpp:258-579 | and holds all through a run if and only if every drop of the run comes in Released |
| AgpsRuns.ListOverEveryRun | gps/loc_api/libloc_api_50001/loc_eng_agps.cpp:715-801 | the list invariant from the initial machine over every sequence of events; the waiting subscribers where drops come only in Released |
| AgpsRuns.DropLeavesRequestForNobody | gps/loc_api/libloc_api_50001/loc_eng_agps.h:242-243 | with drops Pending may have nobody left to wait |
| AgpsEffects.SubscribeDoes | gps/loc_api/libloc_api_50001/loc_eng_agps.cpp:258-787 | in every state: who is listed, where, and what is told at once, when somebody subscribes |
| AgpsEffects.UnsubscribeDoes | gps/loc_api/libloc_api_50001/loc_eng_agps.cpp:258-801 | in every state: the first equal subscriber turns inactive, or is told and taken out, and nobody else; and the state that leads to |
| AgpsEffects.GrantedDoes | gps/loc_api/libloc_api_50001/loc_eng_agps.cpp:369-377 | GRANTED is told to exactly the active subscribers, once each and in order, and only in Pending |
| AgpsEffects.ClosedDoes | gps/loc_api/libloc_api_50001/loc_eng_agps.cpp:385-568 | whom RELEASED and DENIED are told to and who stays, in every state |
| AgpsEffects.DropDoes | gps/loc_api/libloc_api_50001/loc_eng_agps.h:242-243 | a drop empties the list, tells nobody and keeps the state |
| AgpsEffects.SubscribedIsActiveExactlyWhen | gps/loc_api/libloc_api_50001/loc_eng_agps.cpp:738-748 | after subscribing one is active if and only if one was not listed as inactive |
| AgpsEffects.EarlyReturnIsLost | gps/loc_api/libloc_api_50001/loc_eng_agps.cpp:514-568 | a run in which a WIFI subscriber comes back before the close completes and is dropped |
| AgpsRuns.GuardNeverSuppresses | gps/loc_api/libloc_api_50001/loc_eng_agps.cpp:750-777 | the guard of sendRsrcRequest suppresses no call that a transition makes |
| AgpsRuns.TrafficIs | gps/loc_api/libloc_api_50001/loc_eng_agps.cpp:258-579 | one event makes at most one entry of traffic, and which |
| AgpsRuns.StateFollowsTraffic | gps/loc_api/libloc_api_50001/loc_eng_agps.cpp:258-579 | the state is connected after an event exactly as the traffic says |
| AgpsRuns.StepAlternates | gps/loc_api/libloc_api_50001/loc_eng_agps.cpp:258-579 | one event keeps opening and closing in alternation |
| AgpsRuns.ConnectionOverEveryRun | gps/loc_api/libloc_api_50001/loc_eng_agps.cpp:258-777 | over every run REQUEST is sent only when no connection is open and RELEASE only when one is, and one is open exactly in Pending and Acquired |
| AgpsRuns.SettlesKeepsLedger | gps/loc_api/libloc_api_50001/loc_eng_agps.cpp:715-736 | a step that unlists exactly those it tells something terminal, or flushes, keeps the books of all clones |
| AgpsRuns.StepKeepsLedger | gps/loc_api/libloc_api_50001/loc_eng_agps.cpp:258-801 | every event is made of such steps |
| AgpsRuns.ConservationOverEveryRun | gps/loc_api/libloc_api_50001/loc_eng_agps.cpp:69-748 | each clone is still listed, or was flushed, or left with exactly one terminal status and heard nothing after it |
| AgpsRuns.DsReleasedEndsExactlyWhen | gps/loc_api/libloc_api_50001/loc_eng_agps.cpp:913-944 | a RELEASED taken as DENIED ends what is under way, leaving nobody or a new request for those active; it changes nothing if and only if the machine is Released, whoever is listed |
| AgpsStateMachineClass.SubscribersAreTheLinkedList | gps/utils/linked_list.c:110-327 | adding, finding the first match and taking it out of the subscribers is what LinkedList is proved to do |
| AgpsStateMachineClass.AgpsStateMachine.Search | gps/loc_api/libloc_api_50001/loc_eng_agps.cpp:56-81 | the first list element that the notification is for, which is the linked list's first match |
| AgpsStateMachineClass.AgpsStateMachine.NotifySubscribers | gps/loc_api/libloc_api_50001/loc_eng_agps.cpp:715-736 | every matching subscriber is notified once, and removed if asked |
| AgpsStateMachineClass.AgpsStateMachine.NotifyAndDelete | gps/loc_api/libloc_api_50001/loc_eng_agps.cpp:717-729 | the repeated search ends and notifies and removes exactly the matching subscribers, in list order |
| AgpsStateMachineClass.AgpsStateMachine.Add | gps/loc_api/libloc_api_50001/loc_eng_agps.cpp:738-748 | a clone is added unless an equal subscriber is listed |
| AgpsStateMachineClass.AgpsStateMachine.HasActiveSubscribers | gps/loc_api/libloc_api_50001/loc_eng_agps.cpp:803-811 | tells whether an active subscriber is listed |
| AgpsStateMachineClass.AgpsStateMachine.SendRsrcRequest | gps/loc_api/libloc_api_50001/loc_eng_agps.cpp:750-777 | sends exactly when the action fits the presence of active subscribers |
| AgpsStateMachineClass.AgpsStateMachine.SubscribeRsrc | gps/loc_api/libloc_api_50001/loc_eng_agps.cpp:779-787 | the object's whole new state is the value machine's |
| AgpsStateMachineClass.AgpsStateMachine.UnsubscribeRsrc | gps/loc_api/libloc_api_50001/loc_eng_agps.cpp:789-801 | the same, and whether the subscriber was listed |
| AgpsStateMachineClass.AgpsStateMachine.LetGo | gps/loc_api/libloc_api_50001/loc_eng_agps.cpp:344-350 | a subscriber that waits for the close turns inactive, another is told and removed |
| AgpsStateMachineClass.AgpsStateMachine.OnGranted | gps/loc_api/libloc_api_50001/loc_eng_agps.cpp:369-377 | the object's whole new state on GRANTED, in each of the four states, is the value machine's |
| AgpsStateMachineClass.AgpsStateMachine.OnReleased | gps/loc_api/libloc_api_50001/loc_eng_agps.cpp:473-481 | the same on RELEASED, in each of the four states |
| AgpsStateMachineClass.AgpsStateMachine.OnDenied | gps/loc_api/libloc_api_50001/loc_eng_agps.cpp:385-393 | the same on DENIED, in each of the four states |
| AgpsStateMachineClass.AgpsStateMachine.CloseComplete | gps/loc_api/libloc_api_50001/loc_eng_agps.cpp:550-568 | the Releasing state's answer to RELEASED and DENIED |
| AgpsStateMachineClass.AgpsStateMachine.DropAllSubscribers | gps/loc_api/libloc_api_50001/loc_eng_agps.h:242-243 | the list is flushed without telling anybody |
| CStrings.StrtolReadsPrintInt | libshims/camera/CameraParameters.cpp:315-338 | a printed 32-bit number followed by no digit is read back, up to its end |
| CStrings.StrtolReadsPrintPadded | gps/loc_api/libloc_api_50001/loc_eng_nmea.cpp:659-692 | so is a number padded with zeros |
| CStrings.StrtolReadsNumber | libshims/camera/CameraParameters.cpp:315-338 | of any text the number in front, behind white space and with its sign, is read as the nearest of 32 bits |
| CStrings.StrtolReadsNothing | libshims/camera/CameraParameters.cpp:315-338 | and if nothing is used of a text, there is none and zero is read |
| FlatParams.ParseKeepsClean | libshims/camera/CameraParameters.cpp:212-242 | unflatten makes only keys without '=' and values without ';' |
| FlatParams.RoundTrip | libshims/camera/CameraParameters.cpp:192-242 | unflatten undoes flatten on every such map |
| FlatParams.UnflattenAdds | libshims/camera/CameraParameters.cpp:212-242 | of any list of pairs, in any order and with repetitions, unflatten adds one after the other, the last also without its semicolon; a rest without "=" is dropped |
| FlatParams.EveryTextIsPairs | libshims/camera/CameraParameters.cpp:212-242 | every text is such a list |
| FlatParams.ParsePairOfPrinted | libshims/camera/CameraParameters.cpp:315-338 | a printed size is parsed back, with the end pointer right behind it |
| FlatParams.ParsePairReads | libshims/camera/CameraParameters.cpp:315-338 | of any text with a number in front: refused unless the delimiter follows at once, and otherwise which two numbers |
| FlatParams.ParsePairOfNoNumber | libshims/camera/CameraParameters.cpp:315-338 | of any other text: refused unless the delimiter comes first, and the first number is then zero |
| FlatParams.ParseOfJoinedSizes | libshims/camera/CameraParameters.cpp:340-363 | parsing a comma-joined non-empty list of sizes returns the list |
| FlatParams.ParseStopsAtBadSize | libshims/camera/CameraParameters.cpp:340-363 | a list that goes on with something else than a size gives the sizes before it |
| FlatParams.ParseDropsUnseparated | libshims/camera/CameraParameters.cpp:350-356 | a size followed by anything but a comma is lost |
| CameraParametersClass.SetKeepsClean | libshims/camera/CameraParameters.cpp:245-270 | set keeps the map's form, and an accepted value is then found |
| CameraParametersClass.SetDoes | libshims/camera/CameraParameters.cpp:245-270 | exactly the pairs with a separator are refused; what every key finds after any other |
| CameraParametersClass.SetSizeThenGet | libshims/camera/CameraParameters.cpp:365-379 | setting a pair of 32-bit sizes and reading it back returns the pair |
| CameraParametersClass.SetSizeLeavesOthers | libshims/camera/CameraParameters.cpp:365-457 | and changes no size under another key |
| CameraParametersClass.SizeInReads | libshims/camera/CameraParameters.cpp:372-379 | (-1, -1) for no value or a number that no "x" follows, and otherwise which two numbers |
| CameraParametersClass.SizeInOfNoNumber | libshims/camera/CameraParameters.cpp:372-379 | the same for a value without a number in front |
| CameraParametersClass.ParseSizesList | libshims/camera/CameraParameters.cpp:340-363 | the loop pushes the sizes of the value parser |
| CameraParametersClass.ReachableRoundTrips | libshims/camera/CameraParameters.cpp:192-312 | after any calls of set, unflatten and remove, unflatten undoes flatten |
| CameraParametersClass.CameraParameters.Flatten | libshims/camera/CameraParameters.cpp:192-210 | the loop prints a text from which the map is parsed back |
| CameraParametersClass.CameraParameters.Unflatten | libshims/camera/CameraParameters.cpp:212-242 | the loop leaves the parsed map, in good form |
| CameraParametersClass.CameraParameters.Set | libshims/camera/CameraParameters.cpp:245-270 | NULLs and separators are refused with the map unchanged; otherwise the pair is stored, after the HDR default |
| CameraParametersClass.CameraParameters.Remove | libshims/camera/CameraParameters.cpp:309-312 | exactly the key's entry goes, and the rest stays in order |
| CameraParametersClass.CameraParameters.SetPreviewSize | libshims/camera/CameraParameters.cpp:365-370 | afterwards the preview size is the one set, and the video and picture sizes are what they were |
| CameraParametersClass.CameraParameters.SetVideoSize | libshims/camera/CameraParameters.cpp:395-400 | the same for the video size |
| CameraParametersClass.CameraParameters.SetPictureSize | libshims/camera/CameraParameters.cpp:444-449 | the same for the picture size |
| CameraParametersClass.CameraParameters.SetSize | libshims/camera/CameraParameters.cpp:365-370 | what the three share: afterwards the getter gives the size that was set |
| CameraParametersClass.CameraParameters.GetSize | libshims/camera/CameraParameters.cpp:372-379 | the parsed pair, or -1 and -1 |
| VendorTags.AddReverseFinds | libshims/camera/VendorTagDescriptor.cpp:240-245 | after indexing a tag its pair of names finds it, and every other pair finds what it did |
| VendorTags.BuiltReverseFinds | libshims/camera/VendorTagDescriptor.cpp:235-246 | an index answers only with tags that have the pair, answers every pair, and answers the greatest tag if built in order |
| VendorTags.BuiltReverseAnswersLast | libshims/camera/VendorTagDescriptor.cpp:235-246 | the last tag added with a pair of names is the answer for it |
| VendorTags.SameReverse | libshims/camera/VendorTagDescriptor.cpp:331-348 | two indexes that answer every lookup alike are the same |
| VendorTags.LookupInvertsExactlyWhen | libshims/camera/VendorTagDescriptor.cpp:267-348 | lookupTag inverts getTagName with getSectionName for all tags if and only if no two tags share both names |
| VendorTags.BuiltInOrderExactlyWhen | libshims/camera/VendorTagDescriptor.cpp:235-246 | an index is the one built in the order of the tags if and only if it answers shared pairs with the greatest tag |
| VendorTagParcels.FromParcelIsIndexed | libshims/camera/VendorTagDescriptor.cpp:139-250 | whatever a parcel holds, a descriptor made from it has sorted vectors of the same tags, sections in range and a right index |
| VendorTagParcels.OutOfBoundsExactlyWhen | libshims/camera/VendorTagDescriptor.cpp:236-238 | the unchecked look at the sections goes past them if and only if all could be read and some tag's section index, the last one given for it, is not below the number of different section names |
| VendorTagParcels.ReadTagsBack | libshims/camera/VendorTagDescriptor.cpp:166-203 | tags written are read back, whatever follows them |
| VendorTagParcels.ReadTagsFails | libshims/camera/VendorTagDescriptor.cpp:166-207 | an empty name, or fewer tags than were counted, is an error |
| VendorTagParcels.ReadSectionsBack | libshims/camera/VendorTagDescriptor.cpp:209-231 | section names written are read back into the same sorted vector, or an empty one is an error |
| VendorTagParcels.RecordsRebuild | libshims/camera/VendorTagDescriptor.cpp:196-246 | re-insertion in the written order rebuilds every vector, so section indexes survive |
| VendorTagParcels.RoundTripExactlyWhen | libshims/camera/VendorTagDescriptor.cpp:139-325 | createFromParcel succeeds on a written descriptor if and only if no tag was counted twice and no string is empty; and gives it back if and only if shared pairs are also answered by the greatest tag |
| VendorTagParcels.UniquePairsRoundTrip | libshims/camera/VendorTagDescriptor.cpp:139-325 | createFromParcel undoes writeToParcel for distinct tags, names that are not empty, and unique pairs of names |
| VendorTagGrammar.TagIsReadExactlyWhen | libshims/camera/VendorTagDescriptor.cpp:167-195 | a tag is read exactly from four cells with a vendor tag, one of the six types, a name and a section index |
| VendorTagGrammar.BadTagStatus | libshims/camera/VendorTagDescriptor.cpp:167-195 | BAD_VALUE for a number out of range, NOT_ENOUGH_DATA for anything else |
| VendorTagGrammar.ParsedExactlyWhen | libshims/camera/VendorTagDescriptor.cpp:139-230 | createFromParcel reads given tags and sections exactly from a parcel that begins with their printed form, with names that are not empty and enough sections |
| VendorTagGrammar.EnoughIsAboveMax | libshims/camera/VendorTagDescriptor.cpp:211-219 | the count of sections is accepted exactly when it is above every index, or an index is the greatest of 32 bits |
| VendorTagGrammar.WriteParcelIs | libshims/camera/VendorTagDescriptor.cpp:291-325 | writeToParcel writes that printed form; a single zero for no tags |
| VendorTagGrammar.BadTagIsReported | libshims/camera/VendorTagDescriptor.cpp:166-207 | the first tag that cannot be read decides the error |
| VendorTagGrammar.BadSectionsAreReported | libshims/camera/VendorTagDescriptor.cpp:209-221 | the errors of a missing, insufficient or zero count of sections |
| VendorTagGrammar.BadStringIsReported | libshims/camera/VendorTagDescriptor.cpp:222-230 | NOT_ENOUGH_DATA for a section name that is missing or empty |
| VendorTagGrammar.FromParcelHolds | libshims/camera/VendorTagDescriptor.cpp:166-230 | what is made of any parcel holds its tags, each as given last, and its section names in order |
| VendorTagGrammar.LookupAnswersLastRead | libshims/camera/VendorTagDescriptor.cpp:235-348 | lookupTag answers with the tag read last of those that have both names |
| VendorTagOps.FromOpsIsIndexed | libshims/camera/VendorTagDescriptor.cpp:58-137 | a descriptor is made exactly when every tag is acceptable, and it is well formed; BAD_VALUE otherwise |
| VendorTagOps.OpsAreTakenExactlyWhen | libshims/camera/VendorTagDescriptor.cpp:58-113 | exactly which answers are taken |
| VendorTagOps.FromOpsHolds | libshims/camera/VendorTagDescriptor.cpp:84-133 | it answers for exactly the announced tags, with the module's own names, sections and types |
| VendorTagOps.LookupAnswersLast | libshims/camera/VendorTagDescriptor.cpp:117-133 | lookupTag answers with the last announced tag of a pair of names |
| VendorTagOps.OpsRoundTrip | libshims/camera/VendorTagDescriptor.cpp:58-325 | through a parcel and back: readable if and only if the tags are distinct and no name is empty, and unchanged if and only if, in addition, the last announced tag of every pair is its greatest |
| VendorTagOps.UniqueNamesAreEnough | libshims/camera/VendorTagDescriptor.cpp:58-348 | when no two tags share both names, lookupTag inverts the getters and, for distinct tags with names, the parcel is undone |
| VendorTagOps.RepeatedTagIsUnreadable | libshims/camera/VendorTagDescriptor.cpp:80-325 | a module that announces a tag twice, whose parcel cannot be read |
| VendorTagOps.SwappedTagsAreConfused | libshims/camera/VendorTagDescriptor.cpp:117-325 | a module whose descriptor is read back with another answer |
| VendorTagWrites.OkExactlyWhen | libshims/camera/VendorTagDescriptor.cpp:291-325 | OK means that the whole parcel was written, or that a write of a tag failed and none after it did, which leaves the parcel short |
| VendorTagWrites.WhatIsWritten | libshims/camera/VendorTagDescriptor.cpp:291-325 | the parcel holds the count, the tags and behind them the sections, both up to their first failing write |
| VendorTagWrites.FailureIsForgotten | libshims/camera/VendorTagDescriptor.cpp:305-322 | for every descriptor with a tag, one failing write after which OK is returned |
| VendorTagWrites.NoFailureWritesAll | libshims/camera/VendorTagDescriptor.cpp:291-325 | without failures the whole parcel is written |
| VendorTagDescriptorClass.VendorTagDescriptor.CreateFromOps | libshims/camera/VendorTagDescriptor.cpp:58-137 | the two loops build the value descriptor, or return its error; BAD_VALUE for no operations |
| VendorTagDescriptorClass.VendorTagDescriptor.CollectTags | libshims/camera/VendorTagDescriptor.cpp:84-113 | the first loop collects all vectors, or stops at the first unacceptable tag |
| VendorTagDescriptorClass.VendorTagDescriptor.IndexTags | libshims/camera/VendorTagDescriptor.cpp:117-133 | the second loop builds section indexes and reverse index |
| VendorTagDescriptorClass.VendorTagDescriptor.CreateFromParcel | libshims/camera/VendorTagDescriptor.cpp:139-250 | the loops over the parcel build the value descriptor, or return its error and no descriptor; BAD_VALUE for no parcel |
| VendorTagDescriptorClass.VendorTagDescriptor.BuildIndex | libshims/camera/VendorTagDescriptor.cpp:235-246 | the last loop builds the reverse index of the tags read |
| VendorTagDescriptorClass.VendorTagDescriptor.WriteToParcel | libshims/camera/VendorTagDescriptor.cpp:291-325 | appends what the value writer writes under the same failures, and returns its status; BAD_VALUE for no parcel |
| VendorTagDescriptorClass.VendorTagDescriptor.WriteTagList | libshims/camera/VendorTagDescriptor.cpp:302-314 | the loop writes the tags up to the first failure |
| VendorTagDescriptorClass.VendorTagDescriptor.LookupTag | libshims/camera/VendorTagDescriptor.cpp:331-348 | the tag found under section and name, or BAD_VALUE |
| UrlEscape.CodeIsPercentEncoding | gps/loc_api/libloc_api_50001/LocEngAdapter.cpp:213-218 | the table's codes are '%' and the two hexadecimal digits of the character, for exactly the four characters |
| UrlEscape.DecodeOfEncode | gps/loc_api/libloc_api_50001/LocEngAdapter.cpp:206-247 | an independent decoder undoes the encoding |
| UrlEscape.KeptIsGreatest | gps/loc_api/libloc_api_50001/LocEngAdapter.cpp:221-242 | a prefix fits if and only if it is no longer than the one kept |
| UrlEscape.BoundedIsLongestPrefix | gps/loc_api/libloc_api_50001/LocEngAdapter.cpp:206-255 | the result fits with its NUL, holds no separator, cuts no escape and decodes to the longest prefix that can fit; nothing is lost if and only if all fits |
| UrlEscape.FindEncoding | gps/loc_api/libloc_api_50001/LocEngAdapter.cpp:223-227 | the loop finds the character's entry or the end of the table |
| UrlEscape.FillBuffer | gps/loc_api/libloc_api_50001/LocEngAdapter.cpp:221-248 | the loop leaves the encoding of the kept prefix in the buffer |
| UrlEscape.EncodeInPlace | gps/loc_api/libloc_api_50001/LocEngAdapter.cpp:210-255 | the array ends up holding that encoding and a NUL, with the rest untouched |
| NmeaGsv.SentencesListAll | gps/loc_api/libloc_api_50001/loc_eng_nmea.cpp:641-791 | the sentences list the satellites in order, each once, four in all but the last; there are ceil(n/4) of them, rightly numbered, or one blank one |
| NmeaGsv.SentencesFit | gps/loc_api/libloc_api_50001/loc_eng_nmea.cpp:659-700 | every sentence fits the buffer with its checksum, so the returns for a text that does not fit are never taken |
| NmeaGsvText.SentIsRead | gps/loc_api/libloc_api_50001/loc_eng_nmea.cpp:641-791 | a reader of the text sent finds the system, the count of sentences, the number of this one, the satellites in view, and of each of its satellites number, elevation, azimuth and strength, in their widths |
| NmeaGsvText.RoundedIs | gps/loc_api/libloc_api_50001/loc_eng_nmea.cpp:677-691 | values are rounded to the nearest integer from -0.5 up, and below that up to the integer next above the value and a half |
| NmeaGsv.InViewIsTheReport | gps/loc_api/libloc_api_50001/loc_eng_nmea.cpp:624-635 | a satellite is listed exactly when it is in the report and in the system's range |
| NmeaGsv.InViewIsInOrder | gps/loc_api/libloc_api_50001/loc_eng_nmea.cpp:624-705 | those numbered 1 to 32, or 65 to 96, are listed once each and in the order of the report |
| NmeaGsv.CountSvs | gps/loc_api/libloc_api_50001/loc_eng_nmea.cpp:624-635 | the loop counts the satellites of each system |
| NmeaGsv.FillSentence | gps/loc_api/libloc_api_50001/loc_eng_nmea.cpp:670-705 | the inner loop prints the next satellites in range behind the header, four unless the report ends, and every text fits what remains of the buffer |
| NmeaGsv.SendInView | gps/loc_api/libloc_api_50001/loc_eng_nmea.cpp:641-713 | the nested loops send exactly the texts of the paged sentences |
| NmeaGsv.GenerateSv | gps/loc_api/libloc_api_50001/loc_eng_nmea.cpp:606-791 | GPS sentences and then GLONASS sentences, each independent of the other |

## Left out

- BoyerMoore.Search: requires a non-empty pattern, because for an empty one `bm_make_delta1` already writes out of range before `bm_search` looks at the length; integers are unbounded, with the tables' bounds proved.
- LocTimer.FutureTime: assumes what `clock_gettime` returns; the narrowing of a `tv_sec` difference to int when ranking is not modelled.
- LocTimerRuns.NoLostWakeup: is about one container; the other has its own heap and fd. The kernel's timerfd and epoll are an armed time and a polled flag, a poll may wake at any time the fd is armed, the clock never goes back, and the message queue is the FIFO proved in `MsgQueue.dfy`.
- LocTimerContainerClass.LocTimerContainer.ProcExpire: lists the timers whose `expire()` is called instead of calling the clients; the calls, with the stop they force, are steps of `LocTimer.dfy`, which expire the same timers in the same order (`LocTimerExpiry.ExpireMessageDoes`).
- LocTimerClient.LocTimer.Start: takes the reading of the clock and the container's message queue as parameters; the lock is the method itself.
- LocThread.FreedOnceAndNotTouchedAfter: the delegate is a record in a step system, not a class, because two threads update its fields between each other's reads.
- AgpsRuns.ListOverEveryRun: for runs in which nothing is compared that the source cannot compare: a listed BIT subscriber with INADDR_NONE as its ID and an ATL or WIFI subscriber with that ID, of which it would read past the object.
- AgpsRuns.DsReleasedEndsExactlyWhen: is only the event translation of `DSStateMachine`; its retries and data call results depend on a modem interface that is not part of this model.
- AgpsStateMachineClass.AgpsStateMachine.SendRsrcRequest: the addresses, SSID and password copied into the request are not modelled; a notification carries its receiver by value, because the list element it came from is deleted while it is still in use.
- CStrings.StrtolReadsPrintInt: `long` has 32 bits here; where it has 64 the saturation differs, and the values that 32-bit callers print are read alike.
- CameraParametersClass.CameraParameters.Set: a C string argument is one without a NUL; `setFloat` and `getFloat` are library formatting.
- VendorTagParcels.RoundTripExactlyWhen: for at most INT32_MAX sections, so that their count cannot be mistaken for a tag.
- VendorTagDescriptorClass.VendorTagDescriptor.CreateFromParcel: a parcel is a sequence of written values rather than bytes, and a read of the wrong kind of value fails as a missing one would; an index past the end of a vector and a failed fatal check are errors of their own; the classes of `libutils` and `libbinder` are not part of this model.
- VendorTagDescriptorClass.VendorTagDescriptor.WriteToParcel: a write that fails adds nothing to the parcel.
- UrlEscape.EncodeInPlace: for a size of at least one that is no greater than the array.
- NmeaGsv.SendInView: for values that the casts to int can hold, over `real` instead of float, and without the checksum behind the text; an encoding error of `snprintf` is not modelled.
- Mapping the TZ partition, edify arguments and version comparison in `recovery_updater.cpp`.
- Allocation failures, logging, the debug mains, `LocTimerWrapper`, and a client deleted while its callback runs.
- `loc_eng_ni.cpp`, whose restart path touches its state outside its lock.
- `LocApiBase`, configuration parsing, the camera wrappers and Binder proxies, lights, init and release tools: lookups, file access and calls into unseen libraries.
