# GameService in Dafny

A model of the stateful parts of the game server and proofs about whole runs of them.

- **Connections** (`NetThread`, `Distribution`, `RoundRobin`, `Acceptor`, `LoadBoundTight`): a network
  thread's socket lists and counter as a class; the acceptor's select, arm, accept, re-arm cycle interleaved
  with sockets closing and threads absorbing and pruning, down to the two operand reads of each
  comparison in the select loop (in either order, as C++ leaves it open).
- **Chat** (`ChatMessage`, `ChatReader`, `ChatRoom`, `ChatWire`, `ChatRuns`, `ChatClient`): the four-byte
  decimal header through `sprintf`, `strncat` and `atoi`; the header-then-body read loop; the room's bounded
  history and the sessions' write queues; every run of joins, deliveries, write completions and errors,
  and what the client reads at the far end of the socket, wherever the byte stream is cut.
- **Area of interest** (`AxisIndex`, `SetIntersection`, `Scene`, `SceneRuns`, `Hoster`): the two axis
  maps, the range query, and the moves of entities.
- **Time** (`Timer`, `WorldLoop`): the wrapping millisecond clock, the timers, and the world loop that
  compensates its sleep.
- **Weighted choice** (`WeightedChoice`) and the **message dispatcher** (`Dispatcher`).

`SeqFilter` and `Common` hold the sequence filters and arithmetic they share. Classes stand for the program's objects; each method
is proved against a function of the old state, and the theorems about runs are about those functions.

## What turned out different from what the program's comments promise

- `Entity::StepMove` gives the entity its new position before the scene erases "the previous" one
  (`Entity.cpp:77-78`), so old buckets stay. `StepMoveKeepsExactIff` says exactly when the index survives
  a move as written; `BucketsHoldWhoLingers` exactly what the buckets hold in any run of it;
  `AnsweredInAnyOrderIff` and `BroadcastReachesIff` exactly which of the candidates a query and a
  broadcast then reach whatever the orders. `ExactInEveryRun` is about the scene's own methods called
  while the entity holds its old position; no theorem mixes the two.
- `std::set_intersection` is given hash-set ranges (`Scene.cpp:77`), which are not sorted. Nothing is
  missed whatever the orders exactly if nobody is in sight, or one entity only, whose id is the largest
  in either window (`QueryAnswersAllInAnyOrderIff`); so an entity with company can miss somebody
  (`CompanyCanBeMissed`, `OneOfTwoInACellIsMissed`). `CompleteIffCompatible` is the exact condition on two
  given orders.
- `PriorityQueue::GetNext` pops before its reference to the front slot is read (`PriorityQueue.h:48-51`),
  so the loop acts on the message then in front, which is still queued, and not on the one popped
  (`MessageDispatcher.cpp:32-42`). `ConservesIffOneAtATime` says exactly when that does no harm: when
  every pass finds one message queued. `EachIsSeenOnePassEarly` and `DrainConservesIff` say what it does
  to a burst, `TheFirstOfTwoIsLost` to two messages. What is proved about order and waiting is about popping.
- `SendMessage` stamps the message after queueing its copy (`MessageDispatcher.cpp:10-13`); see
  `DelayCountsFromSendersTime`. A pass that finds a message not due just moves on, so the message it
  popped is gone all the same (`MessageDispatcher.cpp:38`).
- The chat client closes its socket right behind the lines it posts (`Sample/chat_client.cpp:158`), which
  ends its writing: `CloseLosesLinesIff` says exactly when lines are lost, `ServerReadsAFirstPart` what the
  server has read at any moment.
- `GetTimeDiff` is one short across a wrap of the clock, so the computed sleep is 51 ms exactly when the
  clock wrapped since a tick that took no time (`SleepStaysInRange`, `AWrapCanAskFor51`).
- All socket classes of the program override `Update` with one that never fails (`Session.h:37`,
  `WorldSession.cpp:140-145`, `AuthServer/Session.h:25`), so live sockets are never pruned, closed or not,
  and their thread's counter keeps counting them (`SessionsAreNeverPruned`). With the base class's
  `Update` a live socket stays until it is closed; being marked closing is not enough (`LiveUntilClosed`).
- `RandomByWeight` matches its weights exactly if none is negative (`DrawsMatchWeightsIffNonnegative`).

## Model

| member | source | states |
|---|---|---|
| NetThread.NetworkThread.AddSocket | NetWork/NetThread.h:55-62 | the socket waits behind the earlier ones and is counted; the thread's accounts stay right |
| NetThread.NetworkThread.AddSockets | NetWork/NetThread.h:67-84 | the waiting sockets that are open become live in order, the others are uncounted and reported removed, none is left waiting |
| NetThread.NetworkThread.Update | NetWork/NetThread.h:98-115 | one tick: absorb, then erase the live sockets whose `Update` fails, whichever the socket class makes those, closing them first if open; nothing once stopped |
| NetThread.ExactlyOnePlace | NetWork/NetThread.h:55-115 | every socket ever added is in exactly one of waiting, live and removed, and none is removed twice |
| NetThread.AbsorbIsStepwise | NetWork/NetThread.h:71-83 | the loop over the waiting sockets, one at a time, does what the filter says |
| NetThread.PruneIsStepwise | NetWork/NetThread.h:105-114 | removing failing sockets one at a time does what the filter says |
| NetThread.TickAccounts | NetWork/NetThread.h:98-115 | a tick keeps counter, lists and removal log consistent; left are, in order, the live and the open waiting sockets that do not fail |
| Distribution.SocketManager.SelectThreadWithMinConnections | NetWork/Socket.h:166-173 | undisturbed, the first thread with a smallest count |
| Distribution.SocketManager.OnSocketOpen | NetWork/Socket.h:150-162 | the chosen thread gets the socket, the other threads are untouched |
| Distribution.RunKeepsAccounts | NetWork/NetThread.h:55-115 | in every interleaving, each thread's counter is what it holds, added sockets are partitioned, held ones are in order of arrival |
| Distribution.LiveUntilClosed | NetWork/Socket.h:32-38 | with the base class's `Update`, a live socket not closed by the end of a run is still live then |
| Distribution.SessionsAreNeverPruned | Session.h:37 | with an `Update` that never fails, the live list only grows in every run and the counter stays at or above it |
| Distribution.StepKeepsSelection | NetWork/Socket.h:166-179 | with counts falling between the reads, the selected thread stays no fuller than every thread was when the select began |
| Distribution.LoadBound | NetWork/AsyncAcceptor.h:63-86 | in every run from empty no thread holds more than floor(peak / n) + 1 sockets |
| LoadBoundTight.TheBoundIsAttained | NetWork/AsyncAcceptor.h:63-86 | for every n >= 2 and every peak >= 1 a run from empty, without pruning, in which a thread holds floor(peak / n) + 1 |
| LoadBoundTight.OneThreadHoldsThePeak | NetWork/AsyncAcceptor.h:63-86 | for n = 1 the load never exceeds the peak |
| RoundRobin.UndisturbedScan | NetWork/Socket.h:166-179 | the interleaved scan, left alone, arms the accept for the thread the sequential loop returns |
| RoundRobin.AcceptsAreDealtInTurn | NetWork/AsyncAcceptor.h:63-86 | while no socket closes or is pruned, k accepts put k/n sockets on each thread and one more on the first k mod n; counts differ by at most one |
| Acceptor.StopsOnlyWhenClosed | NetWork/AsyncAcceptor.h:65-85 | in every run the acceptor stops only if it has been closed, whatever accepts failed |
| Acceptor.AcceptingGoesOn | NetWork/AsyncAcceptor.h:65-85 | from every state of every run without a close, failed accepts included, the cycle can go on and accept another connection |
| Acceptor.ClosingEndsAccepting | NetWork/AsyncAcceptor.h:24-30 | from the close on, at most the accept under way succeeds |
| Acceptor.RemovedAreShut | NetWork/NetThread.h:67-115 | in every run no socket reported removed is still open |
| Acceptor.AbsorbedLiveIffNeverClosed | NetWork/NetThread.h:67-84 | in every run from empty, a waiting socket goes live and stays counted iff neither a close nor a delayed close of it happened, else it is removed and uncounted |
| ChatMessage.ChatMessageBuffer.SetBodyLength | Sample/chat_message.hpp:59-64 | the length is clamped to 512 |
| ChatMessage.ChatMessageBuffer.DecodeHeader | Sample/chat_message.hpp:66-77 | accepts exactly the headers whose number is in 0..512, else the length becomes 0 |
| ChatMessage.ChatMessageBuffer.EncodeHeader | Sample/chat_message.hpp:79-84 | writes four header bytes, blanks and the length's digits without leading zero, leaves the body, and makes the buffer a frame that decodes to its body length |
| ChatMessage.AtoiUndoesPrint | Sample/chat_message.hpp:66-84 | reading the printed form of any nonnegative number gives the number back |
| ChatMessage.HeaderRoundTrip | Sample/chat_message.hpp:66-84 | every possible body length prints to blanks and its digits without leading zero, the only four bytes of that form, which decode to it |
| ChatMessage.AtoiReadsTheNumber | Sample/chat_message.hpp:68-70 | blanks, at most one sign and digits, perhaps none, up to the first other byte are read as the number they denote in positional notation |
| ChatMessage.WhatEveryHeaderAnnounces | Sample/chat_message.hpp:66-77 | every header comes apart like that, and announces a length iff its number is one from 0 to 512, namely that number |
| ChatMessage.NothingBehindNul | Sample/chat_message.hpp:68-69 | header bytes behind a NUL do not matter |
| ChatMessage.HeadersAreNotCanonical | Sample/chat_message.hpp:66-77 | other headers decode too, after blanks of any kind and a sign, so forwarding received bytes is not re-encoding; a negative number is refused |
| ChatMessage.ChatMessageBuffer.ComposeLine | Sample/chat_client.cpp:151-154 | a string becomes a frame of its first 512 bytes |
| ChatReader.ReadLoop | Sample/chat_server.cpp:97-132 | the read loop over one message buffer parses the stream as header-then-body frames |
| ChatReader.ReadingIsLossless | Sample/chat_server.cpp:97-132 | messages read, received header bytes included, and bytes left over are exactly the stream |
| ChatReader.ReadingUndoesWriting | Sample/chat_client.cpp:65-99 | any frames the header decoder accepts, written back to back, are read back exactly, whatever follows |
| ChatReader.ReadingInPieces | Sample/chat_client.cpp:65-99 | how the stream is split over reads does not matter; a refused header is final |
| ChatReader.FailsIffRefused | Sample/chat_server.cpp:97-132 | reading fails iff the bytes left over begin with a header the decoder refuses, and otherwise stops only for want of bytes |
| ChatReader.RefusedHeaderFails | Sample/chat_server.cpp:97-113 | behind any accepted frames a refused header, whatever follows, ends the reading as failed, with those frames read |
| ChatReader.TwoRefusedStreams | Sample/chat_server.cpp:97-113 | streams that begin with 9999 or with a negative number fail at once |
| ChatRoom.ChatSession.Serve | Sample/chat_server.cpp:97-132 | the messages read are delivered to the room in order; the session leaves it iff a header was refused or the stream ended |
| ChatRoom.ChatSession.Deliver | Sample/chat_server.cpp:86-94 | the message is queued, and written at once exactly if the queue was empty |
| ChatRoom.ChatSession.OnWrite | Sample/chat_server.cpp:134-153 | a completed write leaves the queue and the next front is written; a failed one leaves the room |
| ChatRoom.ChatRoom.Join | Sample/chat_server.cpp:43-48 | the session becomes a member and is delivered the history in order |
| ChatRoom.ChatRoom.Deliver | Sample/chat_server.cpp:55-63 | the history keeps the last 100 messages and every member, no one else, gets the message |
| ChatRuns.RunKeepsRoom | Sample/chat_server.cpp:43-94 | in every run one write is in flight iff the queue is nonempty and no write has failed, and it is the front |
| ChatRuns.HistoryIsTheLatest | Sample/chat_server.cpp:55-59 | in every run the history is the latest 100 messages delivered, or all if there are fewer |
| ChatRuns.BrokenIffWriteFailed | Sample/chat_server.cpp:134-153 | in every run a session is broken iff one of its writes has failed, and its front is in flight iff none has and it has a queue |
| ChatRuns.NothingAfterAFailedWrite | Sample/chat_server.cpp:147-151 | after a failed write of a session nothing of it is in flight, its sent and queued messages stay, it is no member, and no write of it completes or fails again |
| ChatRuns.EveryMemberGetsItsDue | Sample/chat_server.cpp:43-63 | in every run, a session's completed writes followed by its queue are the last 100 messages before its join and all messages while a member |
| ChatRuns.CompletionsDeliverAll | Sample/chat_server.cpp:134-153 | while no write of a session has failed, as many completed writes as it has messages queued can follow, and then exactly what is due has been sent |
| ChatRuns.BrokenIsFrozen | Sample/chat_server.cpp:134-153 | after a failed write nothing is written and the queue stays, in every continuation |
| ChatRuns.ClientReadsItsDue | Sample/chat_client.cpp:65-99 | at every moment, with any part or all of the current or failed write out, the client has read exactly the messages whose bytes are complete, a prefix of what is due |
| ChatRuns.RelayedUnchanged | Sample/chat_server.cpp:115-132 | whatever bytes arrive, the accepted frames are forwarded and read again unchanged |
| ChatClient.ChatClient.Write | Sample/chat_client.cpp:33-45 | the composed string joins the queue, written at once exactly if the queue was empty |
| ChatClient.ChatClient.WriteInput | Sample/chat_client.cpp:148-156 | the input loop: lines up to the first longer than 512 bytes, each up to its first NUL |
| ChatClient.ChatClient.OnWrite | Sample/chat_client.cpp:101-121 | the client's write completion: the next write, or the socket closed, keeping every line in order |
| ChatClient.ChatClient.Close | Sample/chat_client.cpp:47-50 | the socket is closed; the queue stays |
| ChatClient.ComposedInputReadsBack | Sample/chat_client.cpp:148-156 | for any input, the messages composed carry the lines before the first longer than 512 bytes, each up to its first NUL, and if all are written are read back as they are |
| ChatClient.ServerReadsAFirstPart | Sample/chat_client.cpp:33-50 | in every run, closing included, the server has read a first part of the lines, and all iff the queue is empty or its one message is all out |
| ChatClient.ReachIsFinal | Sample/chat_client.cpp:47-50 | once the socket is closed, no more can arrive than was written or was being written then |
| ChatClient.OpenUntilClosed | Sample/chat_client.cpp:101-121 | in every run the socket is open iff neither a close nor a failed write has happened |
| ChatClient.NothingAfterAFailedWrite | Sample/chat_client.cpp:101-121 | after a failed write the socket is closed, nothing is in flight or written again, and lines only queue |
| ChatClient.SuccessesWriteAll | Sample/chat_client.cpp:101-121 | while neither has happened, as many completed writes as messages queued can follow, and then every line given is written |
| ChatClient.CloseLosesLinesIff | Sample/chat_client.cpp:148-158 | after a close all lines given can still arrive iff at most one message was queued at that moment |
| SetIntersection.Intersect | Scene.cpp:77 | the merge over two ranges in any order, as a function of them |
| SetIntersection.MergeIsSound | Scene.cpp:77 | in any orders, only common elements come out, each once |
| SetIntersection.CompleteIffCompatible | Scene.cpp:77 | every common element comes out iff the ranges list them in one order and unshared elements lie below the next shared one; they then come out in that order |
| SetIntersection.SortedIsComplete | Scene.cpp:77 | sorted ranges lose nothing |
| SetIntersection.FoundInAnyOrderIff | Scene.cpp:77 | a common element comes out in every pair of orders iff it is the largest of both ranges |
| SetIntersection.CompleteInAnyOrderIff | Scene.cpp:77 | nothing is lost in any pair of orders iff nothing is shared, or one element, the largest of all |
| SetIntersection.UnsortedLosesAnId | Scene.cpp:77 | two orders of the same two ids that lose one |
| AxisIndex.MoveKeepsInverseImageIff | Scene.cpp:47-51 | an update keeps an axis the inverse image iff the held coordinate is the indexed one or the bucket does not change |
| AxisIndex.WindowIsExact | Scene.cpp:66-76 | the window of an exact axis is exactly the ids within 60 cells |
| AxisIndex.SightInTrueDistance | Scene.cpp:35-36 | truncated sight includes every true distance up to 60, excludes 62 and more, for all signs, symmetrically |
| AxisIndex.SightIsTightBetween | Scene.cpp:66-76 | between 60 and 62 both answers occur |
| Scene.Scene.EnterScene | Scene.cpp:29-37 | the entity is registered and put in its two buckets |
| Scene.Scene.UpdatePosition | Scene.cpp:39-52 | erased at the position it holds, inserted at the new one |
| Scene.Scene.LeaveScene | Scene.cpp:54-60 | erased at the position it holds, and left in the registry |
| Scene.Scene.GetNearByEntities | Scene.cpp:62-80 | the merge of the two windows in some orders; no bucket's contents change |
| Scene.QueryAnswers | Scene.cpp:62-80 | on an exact index the answer is within sight and without repetition, and for given orders complete iff they are compatible |
| Scene.QueryAnswersAllInAnyOrderIff | Scene.cpp:62-80 | the query answers everybody in sight whatever the orders iff nobody is, or one entity with the largest id of both windows |
| Scene.CompanyCanBeMissed | Scene.cpp:62-80 | with two entities in sight there are orders for which the answer is incomplete |
| Scene.OneOfTwoInACellIsMissed | Scene.cpp:62-80 | two entities in one cell and a query result with one of them |
| Scene.Entity.StepMove | Entity.cpp:73-81 | as written: new position taken, scene updated from that new position, then broadcast |
| Scene.Entity.SendNearbyMessage | Entity.cpp:130-150 | one message to each registered id of one query, in its order |
| Scene.BroadcastStaysInSight | Entity.cpp:130-150 | on an exact index a broadcast reaches only registered entities in sight, none twice |
| Scene.EntityManager.Add | Entity.cpp:157-165 | the first entity under an id stays registered |
| SceneRuns.ExactInEveryRun | Scene.cpp:29-60 | with old positions still held, both axes are the inverse image of the positions after every run |
| SceneRuns.LastOperationDecides | Scene.cpp:29-60 | those positions are where each entity's last operation put it |
| SceneRuns.StepMoveKeepsExactIff | Entity.cpp:73-81 | a move in the written order keeps the index exact iff the entity stays in its bucket on both axes |
| SceneRuns.BucketsHoldWhoLingers | Entity.cpp:36-81 | in every run as written a bucket holds an id iff it once came there and has not since left from there |
| SceneRuns.WithoutLeavesBucketsNeverForget | Entity.cpp:73-81 | without leaves: iff the entity has ever been there |
| SceneRuns.CandidatesLinger | Scene.cpp:66-76 | the candidates, in both windows after any run as written, are exactly the entities lingering within sight on x and on z |
| SceneRuns.CandidatesMissNobody | Scene.cpp:66-76 | every present entity in sight is a candidate |
| SceneRuns.AnswersAreCandidates | Scene.cpp:62-80 | in every run as written a query answers candidates only, none twice |
| SceneRuns.AnsweredInAnyOrderIff | Scene.cpp:62-80 | in every run as written a candidate is answered whatever the orders iff no larger id lingers within sight on either axis |
| SceneRuns.PresentIsAnsweredIff | Scene.cpp:62-80 | the same for every present entity in sight |
| SceneRuns.BroadcastReachesIff | Entity.cpp:130-150 | in every run as written a broadcast reaches registered candidates only, and one whatever the orders iff it is registered and no larger id lingers within sight |
| SceneRuns.CandidatesIncludeTheGone | Entity.cpp:77-78 | an entity that stepped 500 away is still a candidate |
| Hoster.Hoster.Update | Hoster.cpp:83-104 | every twentieth beat a step from the birthplace; the resident stays within speed of it on both axes |
| Hoster.StaleBucketsAreFew | Hoster.cpp:83-104 | in every run a resident occupies at most 2 * speed + 1 buckets of an axis, all in its range |
| Timer.TimeDiffOfWrappedClock | Timer.h:13-19 | for true differences below 2^31 the result is the true one, less one iff the clock wrapped |
| Timer.PeriodicTimer.Update | Timer.h:154-161 | one update of the remaining time and whether it fires |
| Timer.PeriodicTimer.TrackerRound | Timer.h:170-172 | the tracker interface does exactly what Update does |
| Timer.FiresOnSchedule | Timer.h:154-161 | with updates up to a period, the number of firings is the schedule's, however the time is split |
| Timer.NeverAheadOfSchedule | Timer.h:154-161 | with updates of any length, the remaining time stays in (0, period] and firings follow the schedule of the capped updates |
| Timer.IntervalTimer.Update | Timer.h:34-39 | adds, not below zero |
| Timer.IntervalTimer.Reset | Timer.h:46-50 | reduces modulo the interval when it has passed |
| Timer.ResetsLoseNothing | Timer.h:34-50 | any interleaving of updates and resets ends, reset, at the total time modulo the interval |
| Timer.UpdatesAddUp | Timer.h:34-39 | between resets the timer holds the sum of its updates, raised by the least value below zero that the sum went through |
| Timer.TimeSinceReset | Timer.h:34-50 | with time going forward it holds the time since the last reset plus the remainder of all time before, so it is exact when it passes |
| WorldLoop.WorldUpdateLoop | Main.cpp:36-63 | tick times and computed sleeps of the loop over any environment |
| WorldLoop.DriftIsExact | Main.cpp:36-63 | the start of every tick in closed form: grid, last load less first, forgotten excess, clock wraps |
| WorldLoop.LoadIsTheBeats | Main.cpp:44-61 | in every run each tick loads its update and, iff the load it measured is at most 50, its oversleep; it then asks for the rest of the 50 |
| WorldLoop.SleepStaysInRange | Main.cpp:52-61 | in every run the computed sleep is in 0..50, or 51, and 51 iff the clock wrapped since the previous tick and that tick's load was zero |
| WorldLoop.AWrapCanAskFor51 | Main.cpp:36-63 | a run from clock 0 that asks for 51 |
| WorldLoop.LightRunsKeepTheGrid | Main.cpp:36-63 | with at most 50 ms of work and oversleep per tick, every tick is within 50 ms of the grid, shifted by one per wrap of the clock |
| WorldLoop.NeverAheadOfTheGrid | Main.cpp:36-63 | whatever the load, the loop is never ahead of the grid by more than its first delay |
| WeightedChoice.RandomByWeight | CommonUtil.h:14-30 | -1 iff the weights do not sum to something positive, else the selected position |
| WeightedChoice.RandomItorByWeight | CommonUtil.h:33-48 | the end, or the same position on the same draw |
| WeightedChoice.ExactlyOneIsSelected | CommonUtil.h:13-48 | every draw below a positive sum selects exactly one position, for weights of any signs |
| WeightedChoice.HowManyDraws | CommonUtil.h:13-48 | how many draws select a position, for weights of any signs |
| WeightedChoice.DrawsMatchWeightsIffNonnegative | CommonUtil.h:13-48 | each position gets as many draws as its weight iff no weight is negative |
| Dispatcher.PriorityQueue.Emplace | PriorityQueue.h:33-37 | the message joins the heap, a smallest number in front |
| Dispatcher.PriorityQueue.GetNext | PriorityQueue.h:45-52 | the front is removed; what is returned is the front left behind, if any |
| Dispatcher.MessageDispatcher.SendMessage | MessageDispatcher.cpp:6-14 | the queued copy keeps the sender's time |
| Dispatcher.MessageDispatcher.Dispatch | MessageDispatcher.cpp:22-45 | one pass: nothing, or one message popped and the one then in front found not due, handed over, or without receiver |
| Dispatcher.WhatAPassDoes | MessageDispatcher.cpp:32-53 | the message then in front is handed over iff due and its receiver is registered, recorded as without receiver iff due and it is not, as not due otherwise; nothing else changes |
| Dispatcher.WhatARunHandsOver | MessageDispatcher.cpp:32-53 | in every run what is handed over is, in order, what was looked at when due with its receiver registered, and likewise for the other two outcomes |
| Dispatcher.EverySentIsQueuedOrPopped | PriorityQueue.h:33-52 | in every run the sent messages are exactly the queued and the popped ones, as a multiset |
| Dispatcher.OutcomesAreOfTheSeen | MessageDispatcher.cpp:32-53 | in every run exactly one outcome is recorded for each message looked at |
| Dispatcher.ConservesIffOneAtATime | MessageDispatcher.cpp:22-45 | in every run over distinct messages, sends included, messages are conserved iff every pass is made with exactly one message queued and reads it out of its slot |
| Dispatcher.EachIsSeenOnePassEarly | PriorityQueue.h:45-52 | between sends each pass acts on the message the next pass pops, and the first popped is not acted on |
| Dispatcher.DrainConservesIff | MessageDispatcher.cpp:22-45 | n passes over n queued messages conserve them iff the destroyed last slot reads as the first popped |
| Dispatcher.TheFirstOfTwoIsLost | MessageDispatcher.cpp:22-45 | of two due messages with registered receivers the second is handed over while still queued and the first never |
| Dispatcher.PoppedInOrder | MessageDispatcher.h:22-25 | between sends messages are popped in order of their numbers |
| Dispatcher.NothingBelowIsPopped | MessageDispatcher.h:22-25 | nothing smaller is popped while nothing smaller is queued or sent |
| Dispatcher.WaitIsBounded | PriorityQueue.h:33-52 | a message followed by larger numbers only is popped within as many passes as there were messages of its number or smaller; with fewer passes one of those is still queued |
| Dispatcher.DelayCountsFromSendersTime | MessageDispatcher.cpp:10-13 | the delay is honoured as from the send time iff the sender had set that time; dropped up to the last second before it is over, not from then on |

## Left out

- ASIO, threads and sockets themselves: a completion handler is an event with its outcome as a parameter;
  the acceptor's re-arming cycle is the phase of the state machine in `Distribution`, not a class.
- Start, stop and teardown of the network: `Run` clears the lists without resetting the counter, so the
  accounts end there.
- 32-bit overflow of counters, weights and timer fields; the clock's wrap is modelled.
- Distribution.SocketManager.SelectThreadWithMinConnections: requires at least one thread, which the program assumes.
- Distribution.SocketManager.OnSocketOpen: the socket whose `Start` throws is the accept error of the state machine.
- NetThread.NetworkThread.Update: which sockets fail is a parameter; what else an overriding `Update` does (driving the player) is not modelled.
- Dispatcher.PriorityQueue.GetNext: what the slot destroyed by popping the last message reads as is a parameter; a send between the pop and the reading of the reference, which may move the heap's storage, is not modelled.
- Dispatcher.ConservesIffOneAtATime: takes the messages to differ from each other, and the slot destroyed by popping the last one to read as that one or as none of the run's messages.
- Dispatcher.PriorityQueue.Emplace: how the heap lies behind its front, and which of equal numbers is in front, is left open.
- Scene.Entity.SendNearbyMessage: returns the receivers in the order sent; the message contents and the call into the dispatcher are not modelled.
- Scene.Entity.StepMove: coordinates are reals, so rounding to float and coordinates beyond 32 bits are not modelled; the unused third coordinate is left out.
- SceneRuns.BucketsHoldWhoLingers: one scene; an entity that changes scenes without leaving is not modelled.
- Scene and resident loading, and the managers that only hold them in a container.
- Message handlers, which only log, and the sight checks they have commented out.
- `IsInSight`, player inventory, asset and protocol loading, login, configuration, logging and Redis.
- `TimeTracker` and the clock source: they would only add easy members.
- Random numbers: each draw is a parameter in the range the program asks for.
