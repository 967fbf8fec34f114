# Verified models of the ns-3 simulation kernel

Dafny models of the part of ns-3 on which every simulation rests, with machine-checked proofs:

- **The event schedulers and the simulator loop** (`Events`, `ListScheduler`, `HeapScheduler`,
  `CalendarLists`, `CalendarScheduler`, `Schedulers`, `SimulatorRuns`, `RunHistories`, `Scripts`, `Turns`, `Budgets`,
  `Simulator`). The sorted list of events
  is the specification; the heap and the self-resizing calendar queue are classes over their own data proved to
  behave as that list. The simulator is a class on top of whichever scheduler is in use, each method tied to
  one step of a state machine, and the safety properties are proved for every run of that machine, with other
  threads handing events over between any two steps. What a run has to do is a function of the state it starts
  from and of the script of its handlers, and the loops of the simulator are proved to do exactly that. What becomes of
  each call (`RunHistories`), which moves belong to which event (`Turns`) and when no call is refused (`Budgets`) is
  stated once more from the outside, in terms of the calls, the clock and the moves themselves.
- **128-bit integers and Q64.64 fixed-point numbers** (`Words`, `CairoWideInt`, `FixedPoint`,
  `CairoFixedPoint`, `Decimal`): 128-bit arithmetic on pairs of 64-bit words, the native and the pair form of
  multiplication, division and division by an inverse, and the decimal printer and reader.
- **The occupancy check of the experiments** (`Residence`).

`dafny verify dfyconfig.toml` checks the whole project.

Code that changes fields or loops is modelled by classes and methods in the same form. An inner loop or a
repeated block of a longer function is a method of its own, a `do ... while` is a `while` whose first pass is
forced, and the containers of the source (`std::list`, `std::vector`, `std::string`) are sequences held in a
field. Fixed-width integers are bounded types, and every wrap-around is written out as a remainder.

## What the proofs found

- `Invert(v)` is 2^128 / v rounded up for every v but 2^63: there the check for an exact inverse multiplies a
  negative number and one is added too many (`FixedPoint.Int64x64.Invert`). Division by the inverse is
  still exact, for every divisor and every integer: the integer part is the floor of the quotient, also below
  zero (`FixedPoint.InverseLaw`).
- The new width of a calendar is computed in 64 bits and returned in 32, after the guard against zero. It is
  zero, and the following division traps, exactly when the near separation of the samples is a positive
  multiple of 2^32 (`CalendarLists.WidthIsZeroIff`). The fifth of five events one 2^30 apart does it in a fresh
  calendar (`CalendarScheduler.FifthInsertionTraps`); a queue spanning less than 2^32 time units never does
  (`CalendarScheduler.ShortSpanIsSafe`). Every operation of the calendar and every call of the simulator says
  exactly when this happens, and a simulation whose delays are below 2^32 time units never meets it
  (`Simulator.DefaultSimulatorImpl.Run`, `Scripts.PromisesSpare`).
- `HeapScheduler::Remove` moves the item that fills the hole down but never up. Heap order survives exactly
  when that item is not below the parent of the hole (`HeapScheduler.RemoveKeepsOrderIff`); after seven insertions and
  one such removal an event comes out too late (`HeapScheduler.MisplacedFillRunsLate`).
- The overflow check of the native multiplication masks with zero and never fires. The signed product is the exact
  one if and only if it lies within the signed 128 bits (`FixedPoint.Int64x64.Mul`), the unsigned one if and only if it
  fits in the unsigned 128 bits (`FixedPoint.UmulExactIff`). The pair form aborts exactly when the product of the high
  words needs a second word; it gives a wrong unsigned product without an abort exactly when the product does not fit
  and the high words do not show it (`CairoFixedPoint.SilentOverflowIff`), and a wrong signed one without an abort
  exactly when that lies outside the signed 128 bits (`CairoFixedPoint.Int64x64.Mul`).
- Printing and reading a Q64.64 number give the same 128 bits for every value but -2^127, which prints with two
  signs (`Decimal.RoundTrip`). A fraction can be rounded up to one, whose carry is dropped so that it reads as zero.
  That happens exactly when it starts with nineteen nines and what follows them reads as at least
  12891188518153996061 units (`Decimal.ReachesOneIff`): never with nineteen digits, with twenty exactly for a last
  digit of seven or more, and for every longer row of nines (`Decimal.FractionBelowOne`). The printer never
  writes one.
- Only `Schedule` asserts that its delay is not negative. An event put into the queue at a delay from now is taken in
  the past exactly when that delay is negative (`SimulatorRuns.NegativeDelayRunsBack`).
- Multiplying by an inverse is at most one unit in the last place short exactly when the two middle products fit in 128
  bits; when they do not, the result is 2^64 units too small (`FixedPoint.UmulByInvert`). They fit for every inverse
  that `Invert` returns.
- The signed 128-bit quotient is the truncated one except for -2^127 / -1 (`CairoWideInt.IntDivRem`).

## Model

| member | source | states |
|---|---|---|
| `Events.InsertedIsEventList` | src/core/model/list-scheduler.cc:60-72 | putting a fresh event in front of the first later one keeps the list sorted and unique ids distinct, and adds just that event |
| `Events.WithoutIsEventList` | src/core/model/list-scheduler.cc:96-109 | taking out the event of a unique id keeps the list an event list and takes away just that event |
| `Events.EventListUnique` | src/core/model/list-scheduler.cc:59-93 | a bag of events has only one event list, so agreeing on the bag is agreeing on the order |
| `ListScheduler.ListScheduler.Insert` | src/core/model/list-scheduler.cc:60-72 | the loop inserts at the rank of the key |
| `ListScheduler.ListScheduler.RemoveNext` | src/core/model/list-scheduler.cc:87-93 | returns and takes off the first event |
| `ListScheduler.ListScheduler.Remove` | src/core/model/list-scheduler.cc:96-109 | takes out the event with the unique id and nothing else |
| `HeapScheduler.SiftUpOrders` | src/core/model/heap-scheduler.cc:153-163 | moving an item up restores heap order that is broken only between it and its parent |
| `HeapScheduler.SiftDownOrders` | src/core/model/heap-scheduler.cc:166-198 | moving an item down restores heap order that is broken only between it and its children |
| `HeapScheduler.SiftDownBag` | src/core/model/heap-scheduler.cc:166-198 | moving an item down exchanges items and loses none |
| `HeapScheduler.RootIsLeast` | src/core/model/heap-scheduler.cc:210-214 | under heap order no item is below the root |
| `HeapScheduler.RemoveKeepsOrderIff` | src/core/model/heap-scheduler.cc:228-244 | filling the hole with the last item and moving it down leaves heap order if and only if that item is not below the parent of the hole |
| `HeapScheduler.MisplacedFillRunsLate` | src/core/model/heap-scheduler.cc:237-239 | inserting seven events into an empty heap and removing one makes the event at time 10 come out while the event at time 4 is still held |
| `HeapScheduler.HeapScheduler.BottomUp` | src/core/model/heap-scheduler.cc:153-163 | the loop of exchanges is the upward sift of the last item |
| `HeapScheduler.HeapScheduler.TopDown` | src/core/model/heap-scheduler.cc:166-198 | the loop of exchanges, with its case of a single child, is the downward sift |
| `HeapScheduler.HeapScheduler.Insert` | src/core/model/heap-scheduler.cc:202-207 | the heap holds the list with the event inserted, in heap order if it was, and is the heap with the event sifted up |
| `HeapScheduler.HeapScheduler.PeekNext` | src/core/model/heap-scheduler.cc:210-214 | the root is the first event of the sorted list |
| `HeapScheduler.HeapScheduler.RemoveNext` | src/core/model/heap-scheduler.cc:216-224 | returns what the list scheduler would and leaves the rest of the list, in heap order |
| `HeapScheduler.HeapScheduler.Remove` | src/core/model/heap-scheduler.cc:228-244 | takes out exactly the named event; heap order survives if and only if the fill fits under the hole's parent, which is reported |
| `CalendarLists.InBucketInserted` | src/core/model/calendar-scheduler.cc:100-118 | filing an event in its bucket is inserting it into the one list the buckets stand for |
| `CalendarLists.InBucketWithout` | src/core/model/calendar-scheduler.cc:232-253 | the same for taking an event out of its bucket |
| `CalendarLists.UnderTop` | src/core/model/calendar-scheduler.cc:151 | the test against the top of the day says that the event's own day has come |
| `CalendarLists.TopAdvances` | src/core/model/calendar-scheduler.cc:160-164 | stepping the top of the day by one width keeps it the top of the next day, and a whole year never wraps round 64 bits |
| `CalendarLists.SeparationBounds` | src/core/model/calendar-scheduler.cc:325-350 | the sum of the separations is not negative and at most the span of the samples |
| `CalendarLists.WidthIsZeroIff` | src/core/model/calendar-scheduler.cc:324-355 | the new width is zero if and only if the near separation is a positive multiple of 2^32 |
| `CalendarLists.WidthIs` | src/core/model/calendar-scheduler.cc:352-354 | the new width is three times the near separation cut to 32 bits, or one when that is zero |
| `CalendarLists.SeparationSplit` | src/core/model/calendar-scheduler.cc:338-350 | the separation of a list cut anywhere is that of both parts and the gap between them, if it is within the cutoff |
| `CalendarLists.GapCounts` | src/core/model/calendar-scheduler.cc:286-350 | of the samples (all up to five events, then five and a tenth, at most 25) a gap between neighbours counts if and only if it is at most twice their average gap rounded down |
| `CalendarLists.EvenWidth` | src/core/model/calendar-scheduler.cc:286-354 | events one d apart get the width 3d times the number of gaps between their samples, for every number of events, exactly while that is positive and below 2^32 |
| `CalendarLists.NearAndFarGaps` | src/core/model/calendar-scheduler.cc:336-354 | times 0, 1, 2, 5, 8 give width 24, the gaps of three between the average and twice it counting; times 0, 1, 2, 3, 23 give 9, the gap of twenty not counting |
| `CalendarScheduler.ScanStep` | src/core/model/calendar-scheduler.cc:182-205 | what one step of the scan sees: a front below the top of the day is the global minimum, and otherwise the minimum lies in a later day or is met as the least front |
| `CalendarScheduler.PopWindow` | src/core/model/calendar-scheduler.cc:189-209 | both ways of ending the scan leave the position that belongs to the event taken |
| `CalendarScheduler.EvenSpacingTraps` | src/core/model/calendar-scheduler.cc:256-265 | five events one 2^30 apart are too many for two days and their sampled width is zero |
| `CalendarScheduler.FifthInsertionTraps` | src/core/model/calendar-scheduler.cc:121-127 | in a fresh calendar four such events go in and the fifth insertion traps |
| `CalendarScheduler.ShortSpanIsSafe` | src/core/model/calendar-scheduler.cc:278-355 | a queue that spans less than 2^32 time units never gets width zero |
| `CalendarScheduler.CalendarScheduler.DoInsert` | src/core/model/calendar-scheduler.cc:100-118 | the buckets hold the sorted list with the event inserted |
| `CalendarScheduler.CalendarScheduler.PeekNext` | src/core/model/calendar-scheduler.cc:135-167 | returns the global minimum, whether the scan meets its day or goes round the whole year |
| `CalendarScheduler.CalendarScheduler.DoRemoveNext` | src/core/model/calendar-scheduler.cc:170-214 | takes off the global minimum only, and re-establishes the window at its day |
| `CalendarScheduler.CalendarScheduler.Measure` | src/core/model/calendar-scheduler.cc:325-350 | the loop over neighbouring samples computes the sum of the near separations, and no difference wraps round |
| `CalendarScheduler.CalendarScheduler.CalculateNewWidth` | src/core/model/calendar-scheduler.cc:278-355 | taking up to 25 samples out and putting them back leaves every bucket, the scan position and the list as they were; the width is the sampled one, which `CalendarLists.GapCounts` and `CalendarLists.WidthIs` determine |
| `CalendarScheduler.CalendarScheduler.DoResize` | src/core/model/calendar-scheduler.cc:357-374 | refiling every event in a new year keeps the list, for any positive width |
| `CalendarScheduler.CalendarScheduler.ResizeUp` | src/core/model/calendar-scheduler.cc:256-265 | one doubling is enough to restore both load bounds after an insertion, and the number of days changes only then |
| `CalendarScheduler.CalendarScheduler.ResizeDown` | src/core/model/calendar-scheduler.cc:267-275 | one halving is enough to restore both load bounds after a removal, also of the last event, and the number of days changes only then |
| `CalendarScheduler.CalendarScheduler.Insert` | src/core/model/calendar-scheduler.cc:121-127 | goes on if and only if no resize to width zero is due, and then the list has the event inserted, window, filing and counts hold; the days are doubled, with the sampled width, exactly when there are more than twice as many events and fewer than 32768 days |
| `CalendarScheduler.CalendarScheduler.RemoveNext` | src/core/model/calendar-scheduler.cc:217-229 | returns the first event of the list; goes on under the same condition with the rest of the list and all invariants; the days are halved, with the sampled width, exactly when there are fewer than half as many events |
| `CalendarScheduler.CalendarScheduler.Remove` | src/core/model/calendar-scheduler.cc:232-253 | takes out the named event only, leaves the scan position, and keeps all invariants and load bounds, halving the days under the same condition |
| `Schedulers.Scheduler.Insert` | src/core/model/default-simulator-impl.cc:244 | behind the common interface every scheduler inserts into the same list, failing if and only if a calendar would grow to width zero |
| `Schedulers.Scheduler.RemoveNext` | src/core/model/default-simulator-impl.cc:140 | behind the common interface every scheduler returns the first event of the same list, failing if and only if a calendar would shrink to width zero |
| `Schedulers.Scheduler.Remove` | src/core/model/default-simulator-impl.cc:352 | behind the common interface every scheduler takes the named event out of the same list; the heap fails if and only if the fill does not fit, the calendar if and only if it would shrink to width zero |
| `Schedulers.ZeroWidthIsSpread` | src/core/model/calendar-scheduler.cc:278-355 | a width of zero takes events spread over 2^32 time units or more |
| `SimulatorRuns.ExpiredExact` | src/core/model/default-simulator-impl.cc:370-401 | with queued keys ahead of the current one and executed keys at or behind it, an id is expired if and only if its event is not waiting uncancelled in the queue |
| `SimulatorRuns.StepKeepsInvariant` | src/core/model/default-simulator-impl.cc:137-401 | every call, critical section and event processed keeps queue order, ids, conservation and hand-over |
| `SimulatorRuns.RunKeepsInvariant` | src/core/model/default-simulator-impl.cc:192-208 | over every run the invariant holds, time does not go back and the executed events only grow |
| `SimulatorRuns.EveryRunInOrder` | src/core/model/default-simulator-impl.cc:138-153 | every run executes events in strictly increasing order of time, and of unique id at the same time, all before any still queued |
| `SimulatorRuns.EveryRunExpiresExactly` | src/core/model/default-simulator-impl.cc:370-401 | in every reachable state `IsExpired` is exact for every id handed out by `Schedule` or `ScheduleNow` |
| `SimulatorRuns.EveryRunConserves` | src/core/model/default-simulator-impl.cc:192-208 | every event accepted is exactly once queued, executed or removed, and the counter is the queue size |
| `SimulatorRuns.EveryRunHandsOver` | src/core/model/default-simulator-impl.cc:162-189 | the hand-over list loses and duplicates nothing, a non-empty list has its empty flag cleared, no event is due before its delay has passed since it was pushed, and two events pushed in order with non-decreasing delays get increasing keys whichever rounds drain them |
| `SimulatorRuns.EveryRunDestroysInOrder` | src/core/model/default-simulator-impl.cc:98-111 | in every run the destroy events are taken in the order they were scheduled, each but those removed before |
| `RunHistories.EveryRunIsOnTime` | src/core/model/default-simulator-impl.cc:228-294 | in every run an event scheduled at time T with delay d is from then on in just one of the queue, the executed and the removed events, waits no longer than T + d, and while it is executed the time is T + d and the context the one it was given |
| `RunHistories.EveryRunDelivers` | src/core/model/default-simulator-impl.cc:162-189 | in every run an event handed over at T with delay d stays on its way or is delivered once, with its own context and implementation and a time of at least T + d |
| `RunHistories.EveryRunCancels` | src/core/model/default-simulator-impl.cc:361-367 | after a call of Cancel the id is expired, for good unless it is that of a destroy event no longer waiting, and the mark it sets stays |
| `RunHistories.EveryRunRemoves` | src/core/model/default-simulator-impl.cc:328-358 | an event removed before it expires was in the queue and is never executed, and its id is expired for good |
| `RunHistories.ExpiredStays` | src/core/model/default-simulator-impl.cc:370-401 | an expired id of an event stays expired |
| `RunHistories.EveryRunDestroyExpires` | src/core/model/default-simulator-impl.cc:372-388 | in every reachable state the id of a destroy event is expired if and only if it is null or marked, or was taken or removed as often as it was scheduled |
| `SimulatorRuns.ShortKeepsNear` | src/core/model/default-simulator-impl.cc:228-246 | a step with a delay below 2^32 keeps everything that waits due within 2^32 time units |
| `SimulatorRuns.ShortRunStaysNear` | src/core/model/default-simulator-impl.cc:192-208 | so does every run of such steps |
| `SimulatorRuns.StepReached` | src/core/model/default-simulator-impl.cc:137-401 | a step from a reachable state leads to a reachable state |
| `SimulatorRuns.NegativeDelayRunsBack` | src/core/model/default-simulator-impl.cc:249-264 | an event queued at a delay from now is the next to be taken and lies in the past if and only if the delay is negative |
| `Scripts.DrainsAll` | src/core/model/default-simulator-impl.cc:176-188 | the drain moves everything taken over into the queue |
| `Scripts.DrainPlanDrains` | src/core/model/default-simulator-impl.cc:162-189 | after the swap and the drain nothing is left on the way into the queue |
| `Scripts.IdleTurnShrinks` | src/core/model/default-simulator-impl.cc:200-203 | an event without calls takes one off what is waiting, so that a run ends |
| `Scripts.PlaysMore` | src/core/model/default-simulator-impl.cc:192-208 | two plans carried out one after the other carry out their sequence |
| `Scripts.LegalPlanIsNotBlocked` | src/core/model/default-simulator-impl.cc:192-208 | a run whose planned steps can all be taken is not stopped by one that cannot |
| `Scripts.RunPlanFits` | src/core/model/default-simulator-impl.cc:192-208 | what every turn of a script promises holds of every move of the whole run |
| `Scripts.BreaksSpread` | src/core/model/calendar-scheduler.cc:278-355 | a run fails with a width of zero only in a state whose events are spread over 2^32 time units |
| `Scripts.PromisesSpare` | src/core/model/default-simulator-impl.cc:192-208 | without a calendar, or with all delays below 2^32 from a state where everything is due within 2^32, no width is zero; without a heap or without removals nothing is misplaced |
| `Scripts.IdlePlanIsLegal` | src/core/model/default-simulator-impl.cc:200-203 | with no handlers and nothing handed over every planned step can be taken |
| `Scripts.IdleRunIsDone` | src/core/model/default-simulator-impl.cc:192-208 | a run without handlers on the list scheduler comes to its end |
| `Turns.PlanIsTurn` | src/core/model/default-simulator-impl.cc:138-153 | a turn is the event taken, the actions of its handler one by one unless it is marked, the hand-overs one by one, and then nothing but the drain |
| `Turns.MarkedTurn` | src/core/model/event-impl.cc:46-53 | the turn of a marked event is a turn without a handler |
| `Turns.MarkedNeverActs` | src/core/model/event-impl.cc:46-53 | an event marked at any time before its turn makes no move of a handler |
| `Turns.ScriptInTurns` | src/core/model/default-simulator-impl.cc:200-203 | the loop of a run is cut into turns: the k-th event gets the k-th turn of the script, then idle ones, each begun while no handler has stopped the run |
| `Turns.RunPlanInTurns` | src/core/model/default-simulator-impl.cc:192-203 | a run drains, clears the stop flag and goes on turn by turn |
| `Turns.DestroyPlanInTurns` | src/core/model/default-simulator-impl.cc:98-111 | the destroy events are taken one by one, the k-th with the k-th handler unless it is marked |
| `Turns.RunIsNotStopped` | src/core/model/default-simulator-impl.cc:198 | a run in which no handler calls Stop does not end by the flag, whatever it was before |
| `Turns.IdleRunExecutesAll` | src/core/model/default-simulator-impl.cc:192-203 | without handlers and with nothing handed over a run executes all events of the queue, in its order |
| `Budgets.RoomForRun` | src/core/model/default-simulator-impl.cc:192-208 | no call of a script is refused while there are unique ids for all its calls and time for all their delays together |
| `Budgets.RoomAtFirst` | src/core/model/default-simulator-impl.cc:60-76 | a new simulator has them for n calls with delays of at most d if and only if n + 4 is below 2^32 and n d at most the maximum time |
| `SimulatorRuns.InsertReached` | src/core/model/default-simulator-impl.cc:227-246 | in every reachable state what the schedulers ask of a new event holds: fresh id, not in the past, room left |
| `Simulator.DefaultSimulatorImpl.constructor` | src/core/model/default-simulator-impl.cc:60-76 | starts with the values of the source, in the machine's initial state, on an empty list scheduler |
| `Simulator.DefaultSimulatorImpl.TrapsIsExplained` | src/core/model/default-simulator-impl.cc:137-358 | a step fails only on a calendar, at a width of zero, or when it removes an event from a heap |
| `Simulator.DefaultSimulatorImpl.Enqueue` | src/core/model/default-simulator-impl.cc:241-244 | the queue and the counters after an insertion, which fails if and only if the scheduler's insertion does |
| `Simulator.DefaultSimulatorImpl.Schedule` | src/core/model/default-simulator-impl.cc:228-246 | queues the event at its delay from now in the current context with the next unique id and returns just that id; fails if and only if the scheduler cannot take the event |
| `Simulator.DefaultSimulatorImpl.ScheduleNow` | src/core/model/default-simulator-impl.cc:281-294 | the same at the current time, with the same condition |
| `Simulator.DefaultSimulatorImpl.ScheduleWithContext` | src/core/model/default-simulator-impl.cc:253-264 | the branch of the main thread queues the event at its delay from now in the context given, with the same condition |
| `Simulator.DefaultSimulatorImpl.HandOver` | src/core/model/default-simulator-impl.cc:265-277 | the branch of another thread pushes the event with its relative time and clears the empty flag in one critical section |
| `Simulator.DefaultSimulatorImpl.ScheduleDestroy` | src/core/model/default-simulator-impl.cc:297-305 | appends a destroy event with the reserved id |
| `Simulator.DefaultSimulatorImpl.IsExpired` | src/core/model/default-simulator-impl.cc:370-401 | the branches and the search over the destroy events compute the machine's notion of expiry |
| `Simulator.DefaultSimulatorImpl.Cancel` | src/core/model/default-simulator-impl.cc:361-367 | the id is expired afterwards; just the event of an id that was not is marked, and nothing else changes |
| `Simulator.DefaultSimulatorImpl.EraseDestroyEvent` | src/core/model/default-simulator-impl.cc:333-340 | takes the first destroy event equal to the id out of the list and leaves the others in their order |
| `Simulator.DefaultSimulatorImpl.RemoveQueued` | src/core/model/default-simulator-impl.cc:347-357 | takes an event that has not expired out of queue and count and cancels it; the scheduler is asked only for an event it holds, and the call fails if and only if the scheduler does |
| `Simulator.DefaultSimulatorImpl.Remove` | src/core/model/default-simulator-impl.cc:328-358 | erases the first equal destroy event, does nothing to an expired id, and otherwise takes the event out of queue and count and marks it, failing if and only if the scheduler does |
| `Simulator.DefaultSimulatorImpl.Stop` | src/core/model/default-simulator-impl.cc:211-215 | sets the flag and changes nothing else |
| `Simulator.DefaultSimulatorImpl.Execute` | src/core/model/default-simulator-impl.cc:210-367 | any call takes its step of the machine and fails if and only if the scheduler does |
| `Simulator.DefaultSimulatorImpl.SetScheduler` | src/core/model/default-simulator-impl.cc:114-128 | the new scheduler holds the same list: changing schedulers in mid-simulation is invisible to the machine; it fails if and only if emptying the old calendar or filling the new one meets a width of zero |
| `Simulator.DefaultSimulatorImpl.ProcessEventsWithContext` | src/core/model/default-simulator-impl.cc:162-189 | makes exactly the moves of the drain plan: nothing if the flag is set, else the swap and one delivery for each event taken over, after which nothing is left on its way; it stops only at a delivery that cannot be made or that fails |
| `Simulator.DefaultSimulatorImpl.Deliver` | src/core/model/default-simulator-impl.cc:178-187 | queues an event handed over at its delay from the current time, in its own context, with the next unique id |
| `Simulator.DefaultSimulatorImpl.TakeNext` | src/core/model/default-simulator-impl.cc:140-148 | takes the first event off the queue and makes its time, context and unique id the current ones; the asserted monotonicity of time holds; fails if and only if the scheduler cannot give up its first event |
| `Simulator.DefaultSimulatorImpl.Perform` | src/core/model/default-simulator-impl.cc:113-367 | makes the one move of an action, or is stopped by it: by a failing scheduler, or by a null event, a time out of range, the end of the unique ids or the removal of an event that is none of its own |
| `Simulator.DefaultSimulatorImpl.Handle` | src/core/model/default-simulator-impl.cc:149 | makes exactly the calls and changes of scheduler of a handler, in order, up to one that stops it |
| `Simulator.DefaultSimulatorImpl.HandOverAll` | src/core/model/default-simulator-impl.cc:265-277 | makes exactly the hand-overs of the other threads, in order, up to one that stops it |
| `Simulator.DefaultSimulatorImpl.ProcessOneEvent` | src/core/model/default-simulator-impl.cc:138-153 | makes exactly the moves of its turn, or stops at the first of them that cannot be made or fails: it takes the first event of the queue, makes the calls of its handler and none if the event is marked, lets the other threads hand over, and drains until nothing is left on its way |
| `Simulator.DefaultSimulatorImpl.Run` | src/core/model/default-simulator-impl.cc:192-208 | for any script of handlers, scheduler changes and other threads the run drains, clears the stop flag and makes its moves turn by turn, all of them or up to one that cannot be made or that makes the scheduler fail; events in order, time not going back. It ends with an empty queue unless a handler called Stop, the final assertion proved, and without handlers has executed the whole queue. It is not stuck while unique ids and time last; it never fails on the list, on the heap only in a removal, on a calendar only at a width of zero, which delays below 2^32 rule out |
| `Simulator.DefaultSimulatorImpl.Destroy` | src/core/model/default-simulator-impl.cc:98-111 | takes the destroy events one by one in the order they were scheduled until none is left, each but the removed ones, making the moves of its handler and none if it is marked; it stops and fails only as a run does |
| `CairoWideInt.Add` | src/core/model/cairo-wideint.c:383-392 | pair addition is addition modulo 2^128 |
| `CairoWideInt.Sub` | src/core/model/cairo-wideint.c:395-404 | pair subtraction is subtraction modulo 2^128 |
| `CairoWideInt.Not` | src/core/model/cairo-wideint.c:637-642 | complement is 2^128 - 1 minus the value |
| `CairoWideInt.Negate` | src/core/model/cairo-wideint.c:629-634 | complement plus one is negation modulo 2^128 |
| `CairoWideInt.Lt` | src/core/model/cairo-wideint.c:565-570 | the word-wise comparison orders the values |
| `CairoWideInt.SignedLt` | src/core/model/cairo-wideint.c:573-580 | the signed comparison orders the two's complement values |
| `CairoWideInt.Lsl` | src/core/model/cairo-wideint.c:511-526 | the shift by words and bits multiplies by a power of two modulo 2^128 |
| `CairoWideInt.Rsl` | src/core/model/cairo-wideint.c:529-544 | the shift by words and bits divides by a power of two |
| `CairoWideInt.Mul64` | src/core/model/cairo-wideint.c:455-480 | four half products with one carry check give the exact 128-bit product |
| `CairoWideInt.SignedMul64` | src/core/model/cairo-wideint.c:483-495 | correcting the high word of the unsigned product gives the exact signed product |
| `CairoWideInt.Mul` | src/core/model/cairo-wideint.c:498-508 | the low 128 bits of the product |
| `CairoWideInt.Normalize` | src/core/model/cairo-wideint.c:604-609 | the denominator is scaled by the same power of two as the bit, up to the numerator or to its top bit |
| `CairoWideInt.DivRem` | src/core/model/cairo-wideint.c:596-626 | shift-and-subtract gives quotient and remainder for any numerator and any positive denominator |
| `CairoWideInt.IntDivRem` | src/core/model/cairo-wideint.c:647-668 | the remainder is the truncating one, short and with the sign of the numerator; the quotient is the truncating one if and only if the operands are not -2^127 and -1 |
| `Words.TruncLaw` | src/core/model/cairo-wideint.c:654-667 | truncating division splits the numerator into quotient times denominator and a shorter remainder with its sign |
| `CairoWideInt.FirstEstimate` | src/core/model/cairo-wideint.c:743-753 | dividing by u + 1, also where that wraps to zero |
| `CairoWideInt.MainTerm` | src/core/model/cairo-wideint.c:756-762 | the contribution of q (2^32 - v), also for v = 0 |
| `CairoWideInt.DivideWide` | src/core/model/cairo-wideint.c:704-785 | the two partial divisions and the two corrections give the exact quotient and remainder |
| `CairoWideInt.AddRests` | src/core/model/cairo-wideint.c:764-781 | each of the two rests is worth at most one more unit, also where their sum overflows 64 bits |
| `CairoWideInt.Divide96by64` | src/core/model/cairo-wideint.c:680-787 | the overflow marker if and only if the denominator is zero or the quotient needs more than 32 bits, and otherwise the exact division |
| `CairoWideInt.SignedDivide96by64` | src/core/model/cairo-wideint.c:790-822 | the same for truncating signed division, for every denominator |
| `FixedPoint.Umul` | src/core/model/int64x64-128.cc:73-110 | four partial products with their carries are the middle 128 bits of the product |
| `FixedPoint.UmulExactIff` | src/core/model/int64x64-128.cc:93-95 | the product is exact if and only if it fits in 128 bits; no check tells |
| `FixedPoint.SkipTrailingZeros` | src/core/model/int64x64-128.cc:141-146 | only zero bits leave the divisor |
| `FixedPoint.SkipLeadingZeros` | src/core/model/int64x64-128.cc:150-156 | no bit of the remainder is shifted out |
| `FixedPoint.CastOffDenominator` | src/core/model/int64x64-128.cc:158-167 | no one bit of the divisor is shifted out, although the loop also runs while the remainder is smaller |
| `FixedPoint.BatchStep` | src/core/model/int64x64-128.cc:148-179 | a batch of digits keeps the exact relation between dividend, quotient so far and remainder |
| `FixedPoint.NextBatch` | src/core/model/int64x64-128.cc:150-178 | every batch yields at least one digit, so the division ends |
| `FixedPoint.ShiftIn` | src/core/model/int64x64-128.cc:173-175 | the 128-bit register holds the exact quotient modulo 2^128 |
| `FixedPoint.Udiv` | src/core/model/int64x64-128.cc:122-188 | the batched division is floor(a 2^64 / b) modulo 2^128 |
| `FixedPoint.UmulByInvert` | src/core/model/int64x64-128.cc:201-214 | leaving out the low product costs at most one unit in the last place if and only if the middle products fit in 128 bits, and 2^64 units more when they do not |
| `FixedPoint.UmulByInvertInteger` | src/core/model/int64x64-128.cc:201-214 | for an integer factor it costs nothing, whatever the second factor |
| `FixedPoint.InverseDivides` | src/core/model/int64x64-128.cc:216-232 | an inverse rounded up by at most one divides every integer up to 2^63 exactly |
| `FixedPoint.InverseLaw` | src/core/model/int64x64-128.cc:190-232 | an integer times what `Invert(v)` returns has the floor of its quotient by v as integer part, for every int64 and every v, also the one whose inverse is one too large |
| `FixedPoint.InverseFraction` | src/core/model/int64x64-128.cc:190-198 | an exact quotient leaves no fraction and any other one does, which makes the floor right below zero |
| `FixedPoint.ProbeInverse` | src/core/model/int64x64-128.cc:225-227 | what the check in `Invert` computes, for divisors below, at and above 2^63 |
| `FixedPoint.NoDivisorBetween` | src/core/model/int64x64-128.cc:227-230 | no number between 2^63 and 2^64 divides 2^128, so rounding up is right there |
| `FixedPoint.Int64x64.Mul` | src/core/model/int64x64-128.cc:64-70 | the signed product, cut toward zero at the last fraction bit and to 128 bits; exact if and only if it lies within them |
| `FixedPoint.Int64x64.Div` | src/core/model/int64x64-128.cc:113-119 | the signed quotient, cut toward zero at the last fraction bit and to 128 bits; exact if and only if it lies within them |
| `FixedPoint.Int64x64.MulByInvert` | src/core/model/int64x64-128.cc:191-198 | at most one unit in the last place short of the truncated product if and only if the middle products fit; for an integer and an inverse from `Invert`, the integer part is the floor of the quotient |
| `FixedPoint.Int64x64.Invert` | src/core/model/int64x64-128.cc:217-232 | the inverse is 2^128 / v rounded up if and only if v is not 2^63, for which it is one more |
| `CairoFixedPoint.Umul` | src/core/model/int64x64-cairo.cc:83-116 | aborts if and only if the product of the high words needs a second word, and otherwise agrees with the native form |
| `CairoFixedPoint.AbortMeansOverflow` | src/core/model/int64x64-cairo.cc:100-101 | an aborted product does not fit |
| `CairoFixedPoint.SilentOverflowIff` | src/core/model/int64x64-cairo.cc:99-115 | the product is wrong without an abort if and only if it does not fit and the product of the high words does |
| `CairoFixedPoint.AbortMissesOverflow` | src/core/model/int64x64-cairo.cc:100-101 | a product that does not fit and is not aborted |
| `CairoFixedPoint.Udiv` | src/core/model/int64x64-cairo.cc:128-191 | the same quotient as the native form, from the bit-at-a-time divider |
| `CairoFixedPoint.UmulByInvert` | src/core/model/int64x64-cairo.cc:204-215 | agrees with the native form bit for bit, for every second factor |
| `CairoFixedPoint.Int64x64.Mul` | src/core/model/int64x64-cairo.cc:74-80 | aborts if and only if the product of the integer parts needs a second word; otherwise the native form's product, exact if and only if it lies within the signed 128 bits |
| `CairoFixedPoint.Int64x64.Div` | src/core/model/int64x64-cairo.cc:119-125 | the native form's quotient, exact under the same condition |
| `CairoFixedPoint.Int64x64.MulByInvert` | src/core/model/int64x64-cairo.cc:194-201 | the native form's product with an inverse, with its exact bound and its division law |
| `CairoFixedPoint.Int64x64.Invert` | src/core/model/int64x64-cairo.cc:218-236 | the native form's inverse, with the same one exception |
| `Decimal.IncrementRender` | src/core/model/int64x64.cc:137-163 | the carry through the characters, over the point and into a new digit, is the addition of one to the number |
| `Decimal.Carry` | src/core/model/int64x64.cc:137-163 | the backward walk over the string is that carry |
| `Decimal.FractionDigits` | src/core/model/int64x64.cc:98-128 | the digit loop writes the digits of x 10^k / 2^64 for the fewest places k that are exact, at most twenty |
| `Decimal.Print` | src/core/model/int64x64.cc:69-168 | writes sign, integer part and the fraction rounded to k places, ties after an odd digit going up |
| `Decimal.PrintError` | src/core/model/int64x64.cc:130-164 | what is printed is within 0.6 of the last place, and exact with fewer than twenty places |
| `Decimal.RoundsHalfEven` | src/core/model/int64x64.cc:130-136 | what is printed is the number cut after one more place, rounded to the nearest, ties to even |
| `Decimal.PrintedText` | src/core/model/int64x64.cc:69-168 | the text is a sign, the integer part, a point and one to twenty digits: the fewest that show the number exactly, or twenty within 0.6 of the last place |
| `Decimal.ReadHiDigits` | src/core/model/int64x64.cc:179-190 | the fold over the integer digits modulo 2^64 |
| `Decimal.ReadLoDigits` | src/core/model/int64x64.cc:202-219 | the fold over the fraction digits from the last to the first; aborts if and only if one is no digit |
| `Decimal.HiDecimal` | src/core/model/int64x64.cc:179-190 | reading a printed natural number gives it back modulo 2^64 |
| `Decimal.ReadError` | src/core/model/int64x64.cc:207-216 | for any number of digits all roundings of the reader together lie within -4/9 and 5/9 of the last bit |
| `Decimal.FractionBelowOne` | src/core/model/int64x64.cc:202-219 | up to nineteen digits the fraction read stays below one; twenty digits reach it if and only if they are nineteen nines and at least a seven; longer rows of nines always do |
| `Decimal.ReachesOneIff` | src/core/model/int64x64.cc:207-218 | the fraction read is rounded up to one, and its carry dropped, if and only if it starts with nineteen nines and what follows reads as at least 12891188518153996061 |
| `Decimal.Read` | src/core/model/int64x64.cc:221-275 | finds sign and point and puts the two words together, as `Decimal.ReadsPoint` and `Decimal.ReadsWhole` say for every token |
| `Decimal.ReadsPoint` | src/core/model/int64x64.cc:226-258 | every token with a point: what stands before the first minus sign, else before the first plus sign, else only leading spaces, is skipped; the digits up to the first point are the integer part, the rest the fraction, where another character aborts |
| `Decimal.ReadsWhole` | src/core/model/int64x64.cc:226-262 | every token without a point has no fraction |
| `Decimal.ReadsNumber` | src/core/model/int64x64.cc:226-262 | decimal numbers with and without spaces, sign and point in particular |
| `Decimal.HiIsNumber` | src/core/model/int64x64.cc:179-190 | any integer digits, with leading zeros too, stand for their number modulo 2^64 |
| `Decimal.ReadAccuracy` | src/core/model/int64x64.cc:221-275 | what is read of any such number is that number within -4/9 and 5/9 of the last bit, unless its fraction is rounded up to one |
| `Decimal.ReadsNatural` | src/core/model/int64x64.cc:261-262 | a natural number below 2^63 without sign and point is read as it is |
| `Decimal.FractionLost` | src/core/model/int64x64.cc:218 | a number whose fraction is rounded up to one is read with no fraction and an unchanged integer part |
| `Decimal.MagnitudeRoundTrip` | src/core/model/int64x64.cc:69-275 | for every magnitude below 2^127 the words read are those printed, and the rounding never carries past the point |
| `Decimal.MostNegativeLost` | src/core/model/int64x64.cc:71-74 | -2^127 is not read back |
| `Decimal.RoundTrip` | src/core/model/int64x64.cc:69-275 | printing and reading back is the identity if and only if the value is not -2^127 |
| `Residence.SortInOrder` | experiments/analysis/observations.py:330 | the changes are sorted and all there |
| `Residence.HeldIsMade` | experiments/analysis/observations.py:327-328 | the occupancy of an instant is the arrivals by then minus the completions before it |
| `Residence.HeldAtCounts` | experiments/analysis/observations.py:327-328 | the occupancy of an instant is the number of intervals that contain it, both ends included |
| `Residence.SumMadePermutation` | experiments/analysis/observations.py:328-331 | the order of the changes does not matter for what has happened by an instant |
| `Residence.HighestIsPeak` | experiments/analysis/observations.py:329-332 | the highest running count is the most closed intervals that contain one instant |
| `Residence.Sweep` | experiments/analysis/observations.py:329-332 | the loop ends with the sum of all changes and the highest running count |
| `Residence.ReadRows` | experiments/analysis/observations.py:314-328 | stops with the error of the first bad row, if and only if there is one |
| `Residence.Reconstruct` | experiments/analysis/observations.py:329-335 | the running count of good rows ends at zero and the peak found is the true one |
| `Residence.VerifyResidence` | experiments/analysis/observations.py:312-343 | accepts if and only if every row is good and the summary has the true peak, count, area and mean; says which error otherwise |
| `Residence.GoodRowsIff` | experiments/analysis/observations.py:318-325 | the rows are good if and only if each has its three numbers, the seed of the run, times in order and a duration within 10^-8 of their difference, and no two have the same prefix |
| `Residence.RowIsGoodIff` | experiments/analysis/observations.py:319-325 | which error a row gets: missing numbers before identity before duration |
| `Residence.AgreesIff` | experiments/analysis/observations.py:334-339 | the summary agrees if and only if count and peak are right, the area is within a millionth and the mean within a ten-millionth, or either within 10^-8 of its size |
| `Residence.TotalConcat` | experiments/analysis/observations.py:333 | the area of two lists of durations is the sum of their areas |
| `Residence.TotalEqual` | experiments/analysis/observations.py:333 | equal durations add up to their number times the one |

## Left out

- Key order and key width: scheduler.h orders keys by time stamp and then unique id (src/core/model/scheduler.h:153-169). Time stamps are at most 2^63 - 1, the maximum simulation time, unique ids are assumed not to wrap, and a queue holds fewer than 2^32 events. The simulator's methods ask for the first two (`SimulatorRuns.Enabled`), `Run` checks them before each step and reports the step it had to stop at.
- Insertions before the event removed last: the calendar asks for none, and the simulator is proved to make none; what a calendar does with one is not modelled.
- Negative delays of `ScheduleWithContext`, on either thread: the source does not assert against them as `Schedule` does, and the simulation then fails its own assertion on time or runs back (`SimulatorRuns.NegativeDelayRunsBack`). The steps of the machine take non-negative delays, and `Run` stops at any other.
- Inserting an event whose unique id is already queued, and removing one that is not: the source aborts or is undefined, the model asks callers not to.
- The width of the counter of unscheduled events (`int`), reference counts, event implementations other than their identity and cancel mark, and the handlers' own effects other than their calls.
- Threads: a critical section is one step of the state machine and other threads act between steps. The unlocked read of the empty flag is one step too, so memory ordering is not modelled. In the class, other threads act after each handler; in the state machine they act between any two steps, also while the main thread drains.
- The simulator of the model records the ids handed out, which the source does not, so that `Run` can tell whether a removal names an event of its own; the cancel mark of an event implementation is membership in a set.
- A handler is a list of calls given beforehand, one for each event in the order they are taken, and that of a cancelled event is passed over; `Run` and `Destroy` go on with handlers that do nothing once the script is over, which is what makes them end.
- Dispose, GetDelayLeft, logging, attributes and MapScheduler.
- FixedPoint.Umul: takes factors up to 2^127, the magnitudes of 128-bit numbers, as its only callers do; so do the other unsigned routines for their first factor or divisor.
- Negating -2^127 and, in the signed 96-by-64 division, -2^63 is taken to wrap as two's complement does; in C it is undefined for the native types.
- Arithmetic shifts, the half-width routines of cairo-wideint.c for compilers without 64-bit integers, floating-point constructors and conversions, and the long double form.
- Decimal.Print: the default stream format only; the fixed and scientific formats cut the digits at the stream's precision and promise no round trip.
- Decimal.ReadLoDigits: reports an abort for a fraction character that is no digit, as builds with assertions do; builds without them go on with a wrong digit, which is not modelled.
- Decimal.ReadHiDigits: goes on at a NUL character, at which the source's loop stops.
- Decimal.Read: takes the token as given; splitting the stream into tokens and characters outside ASCII are not modelled.
- Residence.VerifyResidence: times, sums and tolerances are exact reals, so floating-point rounding is not modelled; reading the file and the other fields of the report are left out.
