# A model of libco's scheduling core, and of its neighbours in the repository

This project models, in Dafny, the single-threaded scheduler of libco (`libco/co_routine.cpp`) and proves
what its callers rely on. Beside it stand the smaller scheduler of `coroutine/coroutine.c`, the two
consistent-hash rings written in Go, and three self-contained parts of libco: the environment overlay, the
partial-transfer loop of the hooked `write` and `send`, and the emulation of epoll over kqueue.

`dafny verify dfyconfig.toml` checks everything.

## How it is built

libco's scheduler is modelled twice and the two are tied together.

* On the heap, in the form the source has: nodes with `prev`, `next` and a back-pointer
  (`IntrusiveLists`), an array of lists addressed modulo its size (`TimingWheel`), the loop with its lists,
  condition queues and registrations (`EventLoop`), and a call stack of coroutines that share stack memory
  (`SharedStack`). Each method is proved against a function on values.
* On values: a bag of deadlines (`Deadlines`), what each operation does to waits, deadlines, the active list,
  the queues and the registrations (`LoopModel`), whole runs of many coroutines and one loop with a log of
  what happened to each wait (`Scheduler`), and coroutines with a private stack each (`Coroutines`). The
  theorems about all runs are stated here.
* `Threads` joins the two: it takes the scheduler in memory through a run, operation by operation, the
  drain of the active list included, and keeps its contents equal to the state of that run. Runs are over any
  type of waits, so a wait of the run is the very timer in memory. The call stack of a run, in turn, is that
  of a run of `Coroutines` (`Scheduler.CallsOfARun`); there coroutines are numbered, where `SharedStack` has
  them as objects.

So a timer of the wheel is correct because the wheel holds, slot by slot, the entries of a bag, and a take
is a stable sort of the due ones; a poll wakes once because no reachable state of `Scheduler` has a log that
says otherwise; and a coroutine finds its stack as it left it because `SharedStack.Env` does what `Coroutines`
does, where nobody else can touch it.

The other modules follow the same pattern: `AsymmetricScheduler` (coroutine.c), `Rings` with
`ConsistentHash` and `Ketama` (the rings), `EnvOverlay`, `Transfers` and `Kqueue`. `Seqs`, `Modular` and
`Sorting` hold what they share.

## Where the code falls short of its promise

Each of these is a theorem with the exact condition, and a lemma at a concrete input.

* A poll that the wheel refuses (any poll without a time limit is one) returns an error and frees its wait,
  but epoll keeps what it had registered: `LoopModel.RefusedPollLeaves`,
  `LoopModel.UnlimitedPollLeavesARegistration`.
* Polls with a limit are accepted as long as the loop looked at the clock less than 20 seconds ago, and not
  after: `LoopModel.LimitedPollsAreAccepted`, `LoopModel.ALimitedPollIsRefused`.
* A waiter on a condition that someone other than the loop resumes leaves its freed timer in a list, if the
  timer was in one: `LoopModel.EndCondLeaves`, `LoopModel.ATimerIsLeft`.
* Shared memories are to be handed out in turn. The counter has 32 bits, so the turns are even for ever only
  if the number of memories divides 2^32: `SharedStack.TurnsAreEven`, `SharedStack.ThreeAreNotEven`.
* `Remove` of the Go ring tests the opposite of what its error message says. It is wrong on every input; the
  ring it leaves is right exactly where there was nothing to remove: `Rings.InvertedGuard`,
  `Rings.InvertedGuardSparesTheRing`, `Rings.RemovalsThatGoWrong`. The promises about removal are proved of the
  body behind the guard, `ConsistentHash.Consistent.Drop`.
* Two nodes of a ring that share a point break "add, then remove, restores" and the independence of the
  order: `Rings.AddThenRemove`, `Rings.OrderOfAdding`, `Rings.ASharedPoint`. Monotonicity of adding survives:
  `Rings.AddingIsMonotone`.
* The kqueue emulation leaves a filter behind whose record is freed, if the kernel takes the first filter of
  a change and refuses the second: `Kqueue.Emulation.Ctl`, `Kqueue.AgreeAfterRefusal`, `Kqueue.AFilterIsLeft`.
* Its wait returns the number of descriptors but does not move their events together, so a caller that reads
  that many slots can miss an event and read a slot that this wait did not write: `Kqueue.EventsAreInFront`,
  `Kqueue.AnEventIsMissed`.

## Model

| member | source | states |
|---|---|---|
| IntrusiveLists.RemoveFromLink | libco/co_routine.cpp:162-202 | In a family of lists over a pool of nodes, removal deletes the node from the one list that holds it and changes no other; the family stays well linked, and the assertion that the list has a head and a tail holds |
| IntrusiveLists.AddTail | libco/co_routine.cpp:204-224 | Appends the node to the list, unless it is in some list already; nothing else changes |
| IntrusiveLists.PopHead | libco/co_routine.cpp:225-249 | Drops the first item of the list, which is then in no list; an empty list is left alone |
| IntrusiveLists.Join | libco/co_routine.cpp:252-280 | Concatenates the other list behind this one, every node told its new owner, and leaves the other empty |
| IntrusiveLists.WalksAgree | libco/co_routine.cpp:162-280 | Following next pointers from the head and previous pointers from the tail visits the same items in opposite orders and then stops |
| IntrusiveLists.RemoveNeighbours | libco/co_routine.cpp:171-198 | Without a node, its two neighbours become neighbours and everything else stays adjacent to what it was, the ends included |
| IntrusiveLists.ConcatNeighbours | libco/co_routine.cpp:266-279 | In a concatenation only the last node of the first part and the first of the second get a new neighbour |
| Seqs.WithoutAt | libco/co_routine.cpp:171-198 | Taking an item out of a list leaves the others in their order |
| Deadlines.ByDeadlineIsStable | libco/co_routine.cpp:525-531 | The order in which due items are to come never decreases in deadline and keeps insertion order among equals |
| Deadlines.StableOrderIsUnique | libco/co_routine.cpp:525-531 | Those two facts leave no choice: any two such orders of the same entries are equal |
| Deadlines.BucketsAreDueInOrder | libco/co_routine.cpp:525-531 | Emptying one bucket per millisecond, in order, yields the due entries in exactly that order |
| Deadlines.DueOrLater | libco/co_routine.cpp:498-534 | The clock splits the bag into due and later; nothing is lost, repeated or on both sides |
| Deadlines.ItemsOfByDeadline | libco/co_routine.cpp:525-531 | Ordering the due entries neither loses nor invents nor repeats an item |
| TimingWheel.SlotsAreDistinct | libco/co_routine.cpp:486 | Two different milliseconds of the window never share a slot |
| TimingWheel.PlacedAfterAdd | libco/co_routine.cpp:471-486 | Appending to the slot at `(llStartIdx + diff) % iItemSize` keeps every slot equal to the entries of its deadline, oldest first |
| TimingWheel.PlacedAfterTake | libco/co_routine.cpp:514-533 | After a take, also one that jumped past the whole wheel, the slots emptied held exactly the due entries in stable order, and the new start and index place all later entries correctly |
| TimingWheel.PlacedAfterRemove | libco/co_routine.cpp:162-202 | Unlinking an item from its slot cancels exactly its entries of the bag |
| TimingWheel.Wheel.constructor | libco/co_routine.cpp:418-429 | A new wheel is valid, empty and starts at the current tick |
| TimingWheel.Wheel.AddTimeout | libco/co_routine.cpp:442-489 | Accepts exactly the deadlines from now up to the end of the window, then adds the entry to the bag; an item that is linked already is reported as added but not added; otherwise only an unset start is set |
| TimingWheel.Wheel.DrainSlots | libco/co_routine.cpp:525-531 | The slot loop appends the contents of the first slots of the window to the result, in order, and empties them |
| TimingWheel.Wheel.TakeAllTimeout | libco/co_routine.cpp:498-534 | Appends exactly the items due by now, each once, by deadline and then by age; keeps the later ones; does nothing if the clock is behind the wheel |
| TimingWheel.Wheel.Remove | libco/co_routine.cpp:1262 | An item taken out of whichever list holds it is in no list, and its deadline is cancelled |
| LoopModel.LimitedPollsAreAccepted | libco/co_routine.cpp:1080-1142 | Polls of every non-negative limit are accepted exactly while the last take is less than 20,000 ms ago |
| LoopModel.ALimitedPollIsRefused | libco/co_routine.cpp:473-479 | A poll of 40 s is refused 20,000 ms after the last take and accepted one millisecond earlier |
| LoopModel.RefusedPollLeaves | libco/co_routine.cpp:1204-1249 | After a refused poll every registration still names a live wait exactly if the poll had nothing to register |
| LoopModel.UnlimitedPollLeavesARegistration | libco/co_routine.cpp:1228-1249 | A poll with timeout -1 on one descriptor leaves a registration of a freed wait behind |
| LoopModel.RegisterKeeps | libco/co_routine.cpp:1181-1222 | Registering keeps every registration there was, adds only the new wait's, and ends with every accepted descriptor registered |
| LoopModel.BeginPollDoes | libco/co_routine.cpp:1139-1253 | A poll is due when its limit is over, or after 40 s if that is earlier, and suspends if that lies in the window of 60 s; every registration stays, and every accepted free descriptor gets one, for this wait, under its first index |
| LoopModel.EndPollDoes | libco/co_routine.cpp:1262-1287 | The end of a poll takes away its own descriptors, deadline and place among the active ones; every other registration, wait, deadline and active item is still there and unchanged |
| LoopModel.PrepareDoes | libco/co_routine.cpp:938-962 | An event is counted for the wait that registered its descriptor, its mask kept for that index, and no other wait changes |
| LoopModel.PrepareAllCounts | libco/co_routine.cpp:997-1013 | After any events every wait has been counted exactly those for its own descriptors |
| LoopModel.PrepareAllMasks | libco/co_routine.cpp:942 | ... and has at each index the mask of the last event for that descriptor |
| LoopModel.TakeTimeoutsDoes | libco/co_routine.cpp:1015-1032 | Exactly the waits due by now are marked and put behind the active ones, and exactly their deadlines leave the wheel |
| LoopModel.BeginCondDoes | libco/co_routine.cpp:1444-1465 | A condition wait is due when its limit is over, or never without one, and is the last in its queue; a refused one changes nothing but an unset start |
| LoopModel.EndCondDoes | libco/co_routine.cpp:1468-1471 | The end of a condition wait takes it out of its queue and leaves its timer, the others and their order alone |
| LoopModel.SignalDoes | libco/co_routine.cpp:1404-1418 | A signal makes the oldest waiter the last active item and cancels its deadline; nobody else moves |
| LoopModel.EndCondLeaves | libco/co_routine.cpp:1465-1469 | When a condition wait ends, lists keep naming live waits exactly if its timer was in none of them |
| LoopModel.ATimerIsLeft | libco/co_routine.cpp:1450-1469 | A waiter with a limit of 100 ms that another coroutine resumes at once leaves a freed timer in the wheel |
| LoopModel.BroadcastIsFifo | libco/co_routine.cpp:1423-1436 | A broadcast ends, schedules every waiter oldest first behind what else was active, empties this queue and touches no other |
| EventLoop.CoEpoll.constructor | libco/co_routine.cpp:1073-1087 | A new scheduler is valid and holds nothing |
| EventLoop.CoEpoll.RecordEvent | libco/co_routine.cpp:942-953 | Notes an event at its index, counts it, and tells whether it is the first of its wait |
| EventLoop.CoEpoll.Activate | libco/co_routine.cpp:1412-1415 | A timer leaves the wheel or the list it is in and becomes the last active item |
| EventLoop.CoEpoll.Prepare | libco/co_routine.cpp:938-962 | One reported event is counted for its wait and its mask kept at its index, nothing of other waits changes; only the first one moves the wait out of the wheel and to the active list |
| EventLoop.CoEpoll.ReportEvents | libco/co_routine.cpp:997-1013 | The events of one epoll wait have the effect of preparing them one after the other |
| EventLoop.CoEpoll.MarkTimers | libco/co_routine.cpp:1022-1029 | The walk marks exactly the waits in the timeout list as timed out |
| EventLoop.CoEpoll.TakeTimeouts | libco/co_routine.cpp:1015-1032 | Exactly the due waits are marked and appended to the active list in stable deadline order; the timeout list ends empty |
| EventLoop.CoEpoll.Collect | libco/co_routine.cpp:989-1032 | A pass up to its drain: events first, then deadlines; a wait made active by an event is not due any more |
| EventLoop.CoEpoll.PopActive | libco/co_routine.cpp:1034-1037 | The drain takes the oldest active item |
| EventLoop.CoEpoll.RegisterAll | libco/co_routine.cpp:1181-1222 | Registers each non-negative descriptor that is accepted and not taken, under the index it has in the call |
| EventLoop.CoEpoll.BeginPoll | libco/co_routine.cpp:1137-1253 | Falls back to the system's poll in exactly the one case the code tests for; otherwise suspends exactly if the deadline, `timeout` ms from now but 40 s at most, lies in the window, and is then pending at exactly that time; no registration is lost, and every new one is for a descriptor of the call |
| EventLoop.CoEpoll.EndPoll | libco/co_routine.cpp:1262-1287 | The wait leaves every list; a registration goes exactly if its descriptor is one of this wait, and all others stay as they are; the result is the number of events prepared, with their masks |
| EventLoop.CoEpoll.NewCond | libco/co_routine.cpp:1473-1476 | A new condition has no waiters |
| EventLoop.CoEpoll.BeginCond | libco/co_routine.cpp:1444-1465 | With a positive limit the timer is added first, at exactly `ms` from now, and a refusal changes nothing else; then the waiter is the last in its queue |
| EventLoop.CoEpoll.EndCond | libco/co_routine.cpp:1468-1471 | The waiter leaves the queue of its condition, if it is still there, and is freed |
| EventLoop.CoEpoll.PopWaiter | libco/co_routine.cpp:1486-1494 | Takes the oldest waiter out of the queue, or reports that there is none |
| EventLoop.CoEpoll.CondSignal | libco/co_routine.cpp:1404-1418 | Exactly the oldest waiter leaves the queue and becomes the last active item, wherever its timer was |
| EventLoop.CoEpoll.CondBroadcast | libco/co_routine.cpp:1423-1436 | Terminates with every waiter of the condition scheduled |
| Scheduler.StepKeeps | libco/co_routine.cpp:976-1063 | Every step of the loop and of its callers, direct resumes of pollers and of waiters without a linked timer included, keeps the invariant of stories, lists, registrations, owners, calls and passes |
| Scheduler.EveryStateOfARun | libco/co_routine.cpp:976-1063 | The invariant holds in every state of every run |
| Scheduler.EveryWaitEndsOnce | libco/co_routine.cpp:1137-1288 | Over any run, control came back to a wait that is over exactly once, and never to one that is not |
| Scheduler.EveryWaitHasAStory | libco/co_routine.cpp:938-1063 | A poll became active by its first event or by its deadline but never by both, and returns exactly the number of its events that epoll reported, 0 after a deadline; a condition wait is signalled at most once, also when its deadline came first |
| Scheduler.LoopTouchesLiveWaitsOnly | libco/co_routine.cpp:1000-1051 | In every state registrations name live waits, and every active item can be woken: its coroutine has not ended and is not on the call stack |
| Scheduler.TopOfPass | libco/co_routine.cpp:985-997 | Between passes every poll is in the wheel and untouched, and only waiters that were signalled are active |
| Scheduler.NoWaitIsForgotten | libco/co_routine.cpp:1251-1262 | Every wait is in the wheel, on the active list or in the queue of its condition |
| Scheduler.PassWakesWhatItOwes | libco/co_routine.cpp:1015-1051 | A wait that was due, or whose event was reported, when a pass looked at the clock is over when the pass ends, whatever coroutines did meanwhile |
| Scheduler.WaitsEndOnTime | libco/co_routine.cpp:442-534 | Never early and never late: over any run, a look at the clock at which a poll or a condition wait with a limit is still in the wheel ends it by timeout exactly if its limit, 40 s at most for a poll, is over |
| Scheduler.PollRegisters | libco/co_routine.cpp:1181-1222 | A poll registers every descriptor that was accepted and free, for itself |
| Scheduler.RegistrationIsKept | libco/co_routine.cpp:1181-1274 | Over any run, a descriptor stays registered to its wait, under its index, until it is closed or a wait that lists it ends |
| Scheduler.MaskIsKept | libco/co_routine.cpp:942-1287 | Over any run, a wait has the mask of an event at the index of its descriptor as long as it lasts, or until the next event there |
| Scheduler.NewEvent | libco/co_routine.cpp:942-951 | Within one pass each event of a wait is a new index, so its count is the number of descriptors with events |
| Scheduler.BroadcastKeeps | libco/co_routine.cpp:1423-1436 | A broadcast keeps the invariant, however many waiters there are |
| Scheduler.InterruptKeeps | libco/co_routine.cpp:678-698 | Resuming a waiter from outside the loop ends its wait and disturbs no other, where no timer of it is in a list or it cleans that up itself |
| Scheduler.StepIsACall | libco/co_routine.cpp:678-721 | Each step resumes, yields, ends or leaves the call stack alone, as coroutines with private stacks would |
| Scheduler.CallsOfARun | libco/co_routine.cpp:678-721 | The call stack of every run is that of a run of coroutines, so brackets match and frames are kept in runs of the scheduler |
| Threads.Thread.constructor | libco/co_routine.cpp:889-917 | The main coroutine runs and nothing waits, in memory as in the run |
| Threads.Thread.NothingDangles | libco/co_routine.cpp:1000-1051 | In memory, no registration, no slot of the wheel, no active item and no queue names a wait that was freed |
| Threads.Thread.ReportEvent | libco/co_routine.cpp:997-1013 | What epoll reports can always be prepared: the registration names a live wait; memory and run go on together |
| Threads.Thread.ExpireTimers | libco/co_routine.cpp:1015-1032 | The timeout part of a pass is that step of the run |
| Threads.Thread.DrainOne | libco/co_routine.cpp:1034-1051 | The first active item can be popped and its coroutine resumed, whose wait returns what the log says |
| Threads.Thread.ResumeWaiter | libco/co_routine.cpp:678-698 | A resume from outside the loop is that step of the run |
| Threads.Thread.Poll | libco/co_routine.cpp:1137-1253 | A poll up to its yield is that step of the run, unless it fell back to the system, which changes nothing |
| Threads.Thread.CondWait | libco/co_routine.cpp:1444-1465 | A condition wait up to its yield is that step of the run |
| Threads.Thread.Signal | libco/co_routine.cpp:1404-1418 | A signal is that step of the run |
| Threads.Thread.Broadcast | libco/co_routine.cpp:1423-1436 | A broadcast is that step of the run |
| Coroutines.RunIsSound | libco/co_routine.cpp:678-721 | From the main coroutine on, in every state the call stack has that coroutine at its bottom, none twice, and only started ones that have not ended |
| Coroutines.ReturnsToResumer | libco/co_routine.cpp:706-721 | Every yield and every end closes one earlier resume, that of the coroutine which executes it, and leaves the very call stack of that moment, so control is back with the resumer |
| Coroutines.CallersStandStill | libco/co_routine.cpp:693 | While a resumed coroutine and those above it run, the callers below do not change |
| Coroutines.ControlGoes | libco/co_routine.cpp:678-721 | Control goes to the coroutine resumed, or back to the caller; the one that is left keeps exactly the stack it left, and all others theirs |
| Coroutines.EndsAreForGood | libco/co_routine.cpp:539-554 | Over any run a coroutine has ended exactly if its function returned, and is never called again |
| Coroutines.FrameIsKept | libco/co_routine.cpp:763-824 | From a suspension to the next time control comes back the frame of a coroutine is the one it left |
| SharedStack.Env.constructor | libco/co_routine.cpp:889-917 | The main coroutine runs, alone, on its own stack |
| SharedStack.Env.SaveStackBuffer | libco/co_routine.cpp:737-754 | The save buffer holds the stack from its lowest used byte to its end |
| SharedStack.Env.SwapOut | libco/co_routine.cpp:763-799 | The first half of a switch: the occupant of the other's shared memory, if it is someone else, is copied out and replaced, and nobody else is saved |
| SharedStack.Env.SwapIn | libco/co_routine.cpp:809-823 | The second half: the saved bytes are put back exactly if another coroutine had the memory meanwhile |
| SharedStack.Env.Switch | libco/co_routine.cpp:763-824 | After a whole switch every suspended coroutine's frame is intact, in place or in its save buffer, and the one that goes on finds its stack as it left it |
| SharedStack.Env.Resume | libco/co_routine.cpp:678-698 | Does what a resume does to coroutines with private stacks, also between two that share a memory |
| SharedStack.Env.Yield | libco/co_routine.cpp:706-726 | Control goes to the resumer, whose stack is the one it left |
| SharedStack.Env.Finish | libco/co_routine.cpp:539-554 | A coroutine whose function returned has ended, and its resumer goes on with its own stack |
| SharedStack.Env.Work | libco/co_routine.cpp:801-808 | Whatever the running coroutine writes to its stack, no other coroutine's frame changes |
| SharedStack.Env.AllocStackMem | libco/co_routine.cpp:287-295 | New memory has no occupant and is no coroutine's yet |
| SharedStack.StackSize | libco/co_routine.cpp:576-589 | A private stack has whole pages, at least what was asked for and less than a page more, within a limit, or a default |
| SharedStack.TurnsAreEven | libco/co_routine.cpp:331-334 | Shared memories are handed out strictly in turn, for ever, exactly if their number divides 2^32 |
| SharedStack.ThreeAreNotEven | libco/co_routine.cpp:331-334 | Of three memories the first is handed out twice in a row when the counter starts over |
| SharedStack.ShareStack.GetStackMem | libco/co_routine.cpp:323-335 | Hands out the memory whose turn it is |
| SharedStack.Env.AllocShareStack | libco/co_routine.cpp:303-318 | So many memories of the given size, all different, that no coroutine is on |
| SharedStack.Env.CreateEnv | libco/co_routine.cpp:564-630 | A new coroutine is on the shared memory whose turn it is, or alone on new memory of the rounded size, and disturbs nothing |
| SharedStack.Env.Create | libco/co_routine.cpp:591-629 | Putting a new coroutine on a memory changes no other coroutine's stack |
| AsymmetricScheduler.RunIsConsistent | coroutine/coroutine.c:118-266 | In every state of a run at most one coroutine runs, the one at `running`, and what a suspended one saved fits the stack |
| AsymmetricScheduler.OpDoes | coroutine/coroutine.c:117-266 | What each operation does to its coroutine; the others keep their numbers, what they saved, and whether they were started |
| AsymmetricScheduler.NumberIsKept | coroutine/coroutine.c:117-170 | Over any run a number stays in use until its coroutine ends, and a coroutine stays ready until it is first resumed |
| AsymmetricScheduler.FrameIsKept | coroutine/coroutine.c:179-266 | From a yield to the next resume of that number, the saved frame and the number stay the coroutine's own |
| AsymmetricScheduler.ScanIsComplete | coroutine/coroutine.c:137-148 | A rotated scan that finds no free slot means that all slots are in use |
| AsymmetricScheduler.ScanReaches | coroutine/coroutine.c:142 | Starting anywhere, the scan modulo the capacity reaches every slot |
| AsymmetricScheduler.Schedule.constructor | coroutine/coroutine.c:76-86 | A new scheduler has no coroutine and none runs |
| AsymmetricScheduler.Schedule.New | coroutine/coroutine.c:117-152 | Returns a number that was free, never reaches its final assertion, and keeps every other coroutine under its number |
| AsymmetricScheduler.Schedule.FindFree | coroutine/coroutine.c:135-149 | With fewer coroutines than slots the scan finds a free slot |
| AsymmetricScheduler.Schedule.Grow | coroutine/coroutine.c:120-130 | Doubling keeps every slot and adds free ones |
| AsymmetricScheduler.Schedule.Save | coroutine/coroutine.c:226-242 | The saved bytes are the stack from the given end up, in memory that is large enough and is kept if it was |
| AsymmetricScheduler.Schedule.Resume | coroutine/coroutine.c:178-219 | Puts exactly the bytes of the last yield back at the top of the shared stack, leaves the rest, and marks the coroutine running; a free number does nothing; the assertion on the status holds |
| AsymmetricScheduler.Schedule.Yield | coroutine/coroutine.c:248-266 | The running coroutine is suspended with its current stack saved, and none runs |
| AsymmetricScheduler.Schedule.Finish | coroutine/coroutine.c:159-170 | The finished coroutine's number is free again, and the count of coroutines is still the number of used slots |
| AsymmetricScheduler.Schedule.StatusOf | coroutine/coroutine.c:268-275 | Each status is reported exactly in the state it names |
| Rings.NearestExists | 分布式/hash_alogarithm/consistent_hash_code.go:97-108 | Every hash has a nearest point clockwise on a non-empty ring |
| Rings.FirstNotBelowIsNearest | 分布式/hash_alogarithm/consistent_hash_code.go:97-108 | The first element of a sorted array, repetitions allowed, that is not below the hash, or the first of all if there is none, is the nearest point |
| Rings.Search | 分布式/hash_alogarithm/consistent_hash_code.go:99-101 | Binary search finds the boundary between the elements below the hash and the others |
| Rings.WithPointsDoes | 分布式/hash_alogarithm/consistent_hash_code.go:36-41 | The new points belong to the new node, every other point to whom it belonged, and there are no others |
| Rings.AddingIsMonotone | 分布式/一致性哈希算法.md:12 | A new node takes keys for itself and moves none between old nodes, for every key and even if points collide |
| Rings.RemovingMovesOnly | 分布式/一致性哈希算法.md:9 | Removing a node's points moves only keys of that node |
| Rings.AddThenRemove | 分布式/hash_alogarithm/consistent_hash_code.go:36-60 | Adding a node and removing its points restores the ring exactly if none of its points was taken |
| Rings.OrderOfAdding | 分布式/hash_alogarithm/consistent_hash_code.go:36-41 | Two nodes can be added in either order exactly if they have no point in common |
| Rings.ASharedPoint | 分布式/hash_alogarithm/consistent_hash_code.go:36-60 | Two nodes that share a point: the second takes it, and takes it away when it goes |
| Rings.HistoryDoesNotMatter | 分布式/hash_alogarithm/consistent_hash_code.go:29-64 | Without collisions any two histories of additions and removals that leave the same nodes leave the same ring |
| Rings.NodesHaveHosts | 分布式/hash_alogarithm/consistent_hash_code.go:74-83 | On the ring of nodes that have points every key has one of these nodes |
| Rings.InvertedGuard | 分布式/hash_alogarithm/consistent_hash_code.go:51-64 | The removal as written differs from the one its message describes on every input: it refuses exactly the nodes that are there |
| Rings.InvertedGuardSparesTheRing | 分布式/hash_alogarithm/consistent_hash_code.go:51-64 | Apart from its answer, it leaves the right ring exactly if the node is absent and none of its points is on the ring |
| Rings.RemovalsThatGoWrong | 分布式/hash_alogarithm/consistent_hash_code.go:52-54 | The only node stays after its removal, removing a node that never was there can empty the ring, and removing one without a trace is no error |
| Rings.SortSorts | 分布式/hash_alogarithm/consistent_hash_code.go:92-94 | Sorting the points yields an ascending list of the same ones |
| ConsistentHash.Consistent.Add | 分布式/hash_alogarithm/consistent_hash_code.go:29-48 | Refuses exactly a node that is there; otherwise all of the node's 20 points are on the ring and its own, every other point is what it was, the sorted array lists the points of the map, and every look-up has a host |
| ConsistentHash.Consistent.RefreshHashSortNode | 分布式/hash_alogarithm/consistent_hash_code.go:85-95 | In whatever order the map's keys come, the array ends sorted with exactly those elements |
| ConsistentHash.Consistent.Drop | 分布式/hash_alogarithm/consistent_hash_code.go:56-63 | The part of a removal behind its guard takes the node and all its 20 points away, and no other point |
| ConsistentHash.Consistent.Remove | 分布式/hash_alogarithm/consistent_hash_code.go:51-64 | The removal as it is written, with the guard the wrong way round, its answer included |
| ConsistentHash.Consistent.SearchByIndex | 分布式/hash_alogarithm/consistent_hash_code.go:97-108 | The index is that of the nearest point, with wrap-around |
| ConsistentHash.Consistent.Get | 分布式/hash_alogarithm/consistent_hash_code.go:74-83 | Answers with the owner of the nearest point exactly if there are nodes and points; says so exactly if there is no node, and indexes out of range exactly if there are nodes but no points |
| Ketama.KetamaHash.VirtualNodeArray | 分布式/hash_alogarithm/ketama.go:29-40 | The points of a node are its hash carried on in equal steps, hashed again |
| Ketama.KetamaHash.SortedMap | 分布式/hash_alogarithm/ketama.go:42-52 | Keys appended to what an earlier call left: sorted, with exactly the map's keys as elements |
| Ketama.KetamaHash.NodeMapInit | 分布式/hash_alogarithm/ketama.go:67-80 | Also when repeated, each node owns its points unless a later one took them; without virtual nodes it fails exactly if there is a node |
| Ketama.AfterNodesOwns | 分布式/hash_alogarithm/ketama.go:67-80 | After an initialisation each point of each node, its hash carried on in steps of MAXI / num and hashed again, is on the ring and belongs to the last node that has it |
| Ketama.AfterNodesKeeps | 分布式/hash_alogarithm/ketama.go:67-80 | A point that none of the nodes has is what it was |
| Ketama.KetamaHash.GetNodeKetama | 分布式/hash_alogarithm/ketama.go:54-85 | Answers with the owner of the nearest point, and indexes out of range exactly on an empty ring |
| Ketama.OneMoreNodeIsMonotone | 分布式/hash_alogarithm/ketama.go:67-80 | Initialising with one more node moves keys to that node only |
| EnvOverlay.LessIsTotal | libco/co_hook_sys_call.cpp:761-763 | Of any two names exactly one is less or they are equal |
| EnvOverlay.LessMeans | libco/co_hook_sys_call.cpp:761-763 | The byte at the first difference decides, and a proper prefix comes first, as in `strcmp` |
| Sorting.SortSorts | libco/co_hook_sys_call.cpp:778-781 | By any total preorder, that of the names in particular, sorting yields an ascending permutation |
| EnvOverlay.NotAfterIsTotal | libco/co_hook_sys_call.cpp:761-763 | The comparison of two entries is such a preorder |
| EnvOverlay.IncreasingIsUnique | libco/co_hook_sys_call.cpp:778-793 | Only one strictly increasing list has given entries, so it does not matter which sort is used |
| EnvOverlay.DedupIncreases | libco/co_hook_sys_call.cpp:782-793 | Dropping repetitions from an ascending list leaves a strictly increasing one with every name |
| EnvOverlay.RemoveRepetitions | libco/co_hook_sys_call.cpp:782-793 | The walk of two pointers drops exactly the repetitions, in place |
| EnvOverlay.Search | libco/co_hook_sys_call.cpp:809-810 | Binary search hits exactly if the name is listed |
| EnvOverlay.MapOfUpdate | libco/co_hook_sys_call.cpp:813-816 | Writing one entry of the array updates one name of the map it stands for |
| EnvOverlay.Overlay.SetEnvList | libco/co_hook_sys_call.cpp:766-795 | The first call lists exactly the names that are neither null nor empty, strictly increasing and without values; later calls change nothing |
| EnvOverlay.Overlay.Own | libco/co_hook_sys_call.cpp:751-759 | The copy a coroutine gets on first use changes no coroutine's values and is nobody else's |
| EnvOverlay.Overlay.SetEnv | libco/co_hook_sys_call.cpp:797-822 | A listed name gets the value, unless it has one and is not to be overwritten; no other coroutine sees it; other names are left to the system |
| EnvOverlay.Overlay.UnsetEnv | libco/co_hook_sys_call.cpp:823-848 | A listed name loses its value for this coroutine only |
| EnvOverlay.Overlay.GetEnv | libco/co_hook_sys_call.cpp:849-869 | A listed name answers with this coroutine's value, and the first look-up changes no value |
| Transfers.Channel.Write | libco/co_hook_sys_call.cpp:404-438 | For any answers of the kernel: a positive result is the number of leading bytes it accepted, in order; any other repeats its last answer and means that it accepted none. It is positive exactly if the first answer is, or is an error and the second is positive. After the first answer only one that is not positive ends the call early, and it makes at most one call more than there are bytes. The loop of `send` (541-572) is the same |
| Kqueue.ClsFdMap.Set | libco/co_epoll.cpp:82-93 | For any descriptor: the rows of rows behave as one map, with every descriptor in range kept apart; others are refused, but those from -1023 to -1 lead outside the rows |
| Kqueue.ClsFdMap.Get | libco/co_epoll.cpp:94-103 | For any descriptor: looks up that map and finds nothing out of range, but those from -1023 to -1 lead outside the rows once row 0 exists |
| Kqueue.Emulation.constructor | libco/co_epoll.cpp:120-122 | Nothing is of interest and nothing is registered |
| Kqueue.Emulation.AddFilters | libco/co_epoll.cpp:228-243 | Reading before writing; the first refusal ends it and takes nothing back |
| Kqueue.Emulation.Delete | libco/co_epoll.cpp:161-182 | The descriptor and its filters are gone, and agreement is kept |
| Kqueue.Emulation.Ctl | libco/co_epoll.cpp:183-255 | A change that is made stores exactly the event it was given, a deletion and a rejection forget the descriptor, any other answer changes nothing, and each answer has its exact condition; the kernel's filters agree with the interest afterwards exactly unless a rejected change had got its reading filter in |
| Kqueue.BitsAre | libco/co_epoll.cpp:188-191 | Reading is bit 1, writing bit 4, and these with 8 and 16 are all that is supported |
| Kqueue.LastWordIsLast | libco/co_epoll.cpp:245-252 | What is wanted on a descriptor is what its last change that was made or rejected says |
| Kqueue.AgreeAfterRenew | libco/co_epoll.cpp:212-252 | Deleting the old filters and adding the new ones keeps filters and bits in agreement |
| Kqueue.AgreeAfterRefusal | libco/co_epoll.cpp:228-249 | After a refusal they agree exactly if no filter of the change was taken |
| Kqueue.AFilterIsLeft | libco/co_epoll.cpp:228-249 | A descriptor added for both directions, of which the kernel takes reading only: its filter stays and its record is gone |
| Kqueue.Emulation.Wait | libco/co_epoll.cpp:123-160 | Each descriptor's filters are gathered in the slot of its first report, with the data of the last change made to it; the other slots are untouched; the result is the number of descriptors; every mark is reset |
| Kqueue.DescriptorsAreDistinct | libco/co_epoll.cpp:142-145 | That number is the number of different descriptors reported |
| Kqueue.GatheredHas | libco/co_epoll.cpp:149-153 | The bit of a filter is set exactly if that filter was reported for the descriptor |
| Kqueue.EventsAreInFront | libco/co_epoll.cpp:137-159 | All events are within the first slots, as many as the result says, and every one of these slots was written by this wait, exactly if no repeated report comes before a first one |
| Kqueue.AnEventIsMissed | libco/co_epoll.cpp:137-159 | Three reports, two of them for one descriptor, with an event behind the slots that the result covers |

## Left out

Assumptions that the code needs and that appear as preconditions or parameters:

- TimingWheel.Wheel.TakeAllTimeout: the clock is positive, because a start of 0 means "unset" in the code, and its differences fit a 32-bit `int`; a clock that goes back is modelled (nothing is taken), a difference that wraps around is not. The index of the wheel is unbounded, where the code has 64 bits.
- TimingWheel.Wheel.AddTimeout: the same, for the distance between a deadline and the start of the wheel.
- EventLoop.CoEpoll.BeginPoll: the sum of clock and timeout is not negative, where the code would wrap around; the descriptors are those of one call, and what the kernel answers is a parameter.
- EventLoop.CoEpoll.Prepare: the descriptor's registration names a live wait, which `Threads.Thread` proves of every state it reaches; items without a preparation function, which nothing in the repository creates, are not modelled.
- Scheduler.StepKeeps: one loop that is not re-entered; epoll reports a descriptor at most once in a pass; a coroutine in a condition wait is resumed from outside the loop only while its timer is in no list; and a poll is begun only if the wheel accepts it or it has nothing to register. These last two are the exact conditions of `LoopModel.EndCondLeaves` and `LoopModel.RefusedPollLeaves`, which state what happens otherwise.
- Scheduler.PassWakesWhatItOwes: is about passes that end; whether a drain ends is up to the coroutines, which may signal one another forever.
- SharedStack.Env.Resume: the coroutine has not ended, is not on the call stack, and fewer than 128 calls are nested; the code checks none of this. The main coroutine counts as started, though the code leaves its flag at 0, which only a resume of the main coroutine could observe.
- SharedStack.Env.Switch: the exchange of registers is one atomic step, a stack is a sequence of bytes, and no coroutine keeps a pointer into a stack that others share.
- AsymmetricScheduler.Schedule.Resume: that no coroutine runs and that the number is in range are asserted by the code and required here; the bound on a saved stack likewise in `Yield`.
- ConsistentHash.Consistent.Add: CRC32 and the names of virtual nodes are uninterpreted functions, so nothing is said about how evenly keys are spread.
- EnvOverlay.Overlay.SetEnv: the system's own environment is outside; the contract says when the system is asked. A hook is on for a coroutine, so there is one.
- Transfers.Channel.Write: covers the blocking descriptor with hooks on; without them the call goes straight to the system. The wait for the descriptor to become writable before each further attempt has no effect on what is delivered.
- Kqueue.ClsFdMap.Set: says of a descriptor from -1023 to -1 only that it leads outside the rows, because what a write there does is undefined.
- Kqueue.Emulation.Ctl: deleting a registered filter succeeds; adding one may fail. An addition for a descriptor out of range, which fails an assertion of the code, and descriptors that lead outside the map's rows are excluded.
- Threads.Thread.DrainOne: the waiter record of a condition wait, which the code keeps on the stack of the waiting coroutine, is a parameter.

Not modelled:

- Releasing a coroutine that still occupies a shared memory, freeing a condition that has waiters, and closing a scheduler.
- Register switching (`libco/coctx_swap.S`, `libco/coctx.cpp`, `swapcontext`), real clocks, threads and system calls.
- The translation between the event masks of poll and of epoll, which acts bit by bit.
- The hooks other than `write`, `send` and the environment; name resolution; thread-specific values.
- `libco_l/`, an unfinished copy; examples, closures and build files.
- `GetNode`, which lists the nodes of a ring, and the balance of a ring.
