# Runewarp in Dafny

Runewarp forwards Visitor connections from a public Server, through a Tunnel, to a Client beside the
services. A Managed Client keeps one worker per assigned Server address; each worker keeps one active
Tunnel connection, warms a replacement when the Server hints at a newer generation, and reports
which generations carry its address. This project models the parts of that machinery where several
operations, threads or fragments have to agree, and proves what must hold of every run.

| module | what it models |
|---|---|
| `ConnectedStretch` | what an address worker does while connected, as a transition system over all interleavings of its events |
| `WorkerSystem` | all workers of a Client with the tracker they share, interleaving freely |
| `AddressWorkerLoop` | the select loop and the outer loop of a worker, as code proved to take the steps of `ConnectedStretch` |
| `Convergence`, `Sorting` | the assignment and credit tracker, its status, its report and the order of a report's generations |
| `WorkerPool` | the controller's slots, outstanding worker futures and intents, as values, and every state they can reach |
| `Controller` | the address controller's operations: intent, applies, completions and draining, while workers die and others act at any moment |
| `Shutdown` | concurrent shutdown requests, internal stops, mode reads and waiters, as a machine whose steps are the atomic operations |
| `OrderlyShutdown` | the code of requests and internal stops, proved to take the steps of `Shutdown` with other threads between any two of them |
| `Sse` | the incremental event-stream parser |
| `TrustedNetworks` | address blocks and membership by mask |
| `ProxyProtocol`, `TunnelStreams` | the binary PROXY header, the framing of Tunnel streams, and byte conservation through a replayed stream |
| `FdCapacity` | sharing out file descriptors |
| `Hostnames`, `Addresses` | hostname validation, Server and Control addresses |

How to read the model:

- What a step samples from its environment (the shutdown flag, the maintenance intent, a hint) is
  data of that step, so two samples of the same thing in one turn may differ.
- A worker or thread that acts between two steps of a method is a call of that class's `OthersRun`,
  which changes what others may change, arbitrarily.
- Event loops take a finite schedule of ready events. Since the schedule is arbitrary, what is
  proved of the loop is proved of every finite prefix of its behaviour.
- Clocks, dials, the TLS acceptor, UTF-8 validity and IP-literal syntax are parameters.
- 64-bit counters that saturate or wrap in the code do so here. Three laws hold only until such a
  counter is used up. Each is stated with the exact point: `WorkerPool.StaleIsMistakenExactly`,
  `WorkerSystem.CreditIsExactExactly` and `Sse.LimitsAlwaysHold`. `WorkerPool.StaleClearsPastSaturation`
  and `WorkerSystem.CreditCanGoWrong` reach states in which the first two fail.
- In `WorkerSystem` an address gets a new worker only after its last one has finished. That is what
  `WorkerPool.OneLiveWorkerPerAddress` gives before the generation counter saturates; its theorems,
  `WorkerSystem.CreditIsExactExactly` among them, rest on it.
- The result a worker will come to is fixed, but unknown, when it is spawned, so that the completion
  reaped later can be compared with it.

Where the code and its documentation differ, the model follows the code:

- `docs/sse.md:17` says an event without type and data dispatches nothing. The parser dispatches an
  event on every blank line (`Sse.BlankLineDispatches`).
- A comment in `src/client/address_controller.rs:213-214` says an internal stop never escalates a
  shutdown that already started. It reads the mode and requests Fast in two steps, so it escalates a
  Graceful shutdown that starts between them (`Shutdown.SomeStopEscalates` is such a run), and only
  such a one (`Shutdown.StopsEscalateExactly`).

## Model

| member | source | states |
|---|---|---|
| ConnectedStretch.RunKeepsInv | src/client/address_worker.rs:366-475 | every state of every run keeps the stretch invariant: no candidate beside a joined connection or after shutdown, connection identities in order of joining |
| ConnectedStretch.AtMostTwo | src/client/address_worker.rs:366-475 | in every reachable state active connections and pending or running attempts are at most two, and a joined connection means no candidate |
| ConnectedStretch.QuietAfterShutdown | src/client/address_worker.rs:418-421 | once a run has seen shutdown, no later state has a candidate, no connection ever becomes active again, and the number of active ones never grows |
| ConnectedStretch.CarriersWereAdmitted | src/client/address_worker.rs:478-548 | every connection active anywhere in a run is the dialed one, or joined earlier in it under Maintain, without shutdown, while the primary's unpaused hint named exactly its generation |
| ConnectedStretch.CandidatesHaveOneLife | src/client/address_worker.rs:558-583 | every candidate goes back to a moment when it was allowed and hinted, and had one target, one primary and one observed subscription since |
| ConnectedStretch.JoinsWithinOneSubscription | src/client/address_worker.rs:276-279 | a candidate that joins was hinted when it started and no interruption was counted between the sample that started it and the sample that let it join, given counters that only grow |
| ConnectedStretch.OnlyEndsRemove | src/client/address_worker.rs:366-475 | at every step the connections that leave are exactly the one whose own end was observed, and the ones that enter exactly the joining candidate: Retire, shutdown and hints close nothing |
| ConnectedStretch.PursuitStopsExactly | src/client/address_worker.rs:478-583 | over every run a stretch that pursues a generation stops exactly when it joined, shutdown was observed, Retire came, or a sample no longer allows candidates or no longer names it; a failed attempt is always retried |
| ConnectedStretch.PursuitStartsExactly | src/client/address_worker.rs:558-583 | the pursuit of a generation begins exactly at an opening, end, maintenance or hint event whose sample allows candidates and names it, with nothing joined |
| ConnectedStretch.HintedIsPursued | src/client/address_worker.rs:558-583 | after any such event the stretch pursues that generation, whatever it did before |
| ConnectedStretch.AttemptsRestartExactly | src/client/address_worker.rs:291-345 | a new pursuit, a failed attempt and a counted interruption make the attempt wait, an elapsed delay makes it warm, and nothing else touches it |
| ConnectedStretch.JoinsExactly | src/client/address_worker.rs:478-548 | an attempt that connected becomes the second active connection exactly under Maintain, without shutdown, while the unpaused hint names it and no interruption went unseen |
| ConnectedStretch.ConnectionsStayThemselves | src/client/address_worker.rs:242-280 | a connection that stays active keeps generation and token; only hint events change the interruptions seen, only of the primary, and only closed hints stop them |
| ConnectedStretch.ChannelsAreHistory | src/client/address_worker.rs:366-391 | what a run knows of shutdown and maintenance is exactly what it was given, from the dialed connection on |
| ConnectedStretch.EndsAreListed | src/client/address_worker.rs:399-417 | the ends a result is judged by are all ends of either connection, in order, and nothing else |
| ConnectedStretch.RemembersFirstFailure | src/client/address_worker.rs:587-597 | at every point the remembered failure is the earliest withdrawal protocol failure of the connections that ended so far, and none if there was none |
| ConnectedStretch.ReturnsFirstFailure | src/client/address_worker.rs:366-475 | a stretch returns a withdrawal protocol failure exactly when one of its connections ended with one, and then the first of them; otherwise the last connection's result |
| WorkerSystem.StepKeepsInv | src/client/assignment_convergence.rs:114-136 | every event of every worker keeps credit entries equal to the active connections of each address, unless it ends a connection while the other one of its address carries the same token |
| WorkerSystem.StretchStepAgrees | src/client/address_worker.rs:242-280 | any other step of a stretch changes the address's credit entries exactly as it changes its active connections, a dropped guard removing its own entry only |
| WorkerSystem.OthersAgree | src/client/assignment_convergence.rs:86-99 | a step of one worker or a new assignment leaves the credit of every other address alone |
| WorkerSystem.StretchesAreRuns | src/client/address_worker.rs:182-196 | in any interleaving of all workers a running stretch is where the stretch machine gets on exactly the inputs the trace gave it since it opened, and a closing worker holds what the machine returns on them |
| WorkerSystem.CreditedWereAdmitted | src/client/address_worker.rs:478-548 | every connection carrying credit in a trace is the one dialed for this stretch, or joined at one of the inputs the trace gave it with every joining condition met |
| WorkerSystem.TraceKeepsInv | src/client/address_worker.rs:113-237 | credit entries equal the active connections in every reachable state that no such end precedes |
| WorkerSystem.CreditIsExactExactly | src/client/assignment_convergence.rs:86-99 | over every trace: each address is credited with exactly the generations of its active connections in all states so far, if and only if no connection ended while the other one of its address carried the same token |
| WorkerSystem.NoSharedEndsBeforeWrap | src/client/assignment_convergence.rs:114-136 | until more than 2^64 credit entries were recorded there is no such end |
| WorkerSystem.CreditCanGoWrong | src/client/assignment_convergence.rs:114-136 | a trace in which the first entry past 2^64 leads to such an end, and an active connection is left without credit |
| WorkerSystem.ReportIsExact | src/client/assignment_convergence.rs:140-160 | until such an end, and so in particular before the token counter wraps, the report lists for each assigned address the sorted generations of exactly its active connections, and no other listing qualifies |
| WorkerSystem.ConnectedIsAnnounced | src/client/assignment_convergence.rs:191-215 | in every reachable state an address is marked connected exactly from its worker announcing Connected until it announces the end |
| WorkerSystem.ConvergenceIsExact | src/client/assignment_convergence.rs:56-67 | in every reachable state Converged means every assigned address has an announced worker, and Unconverged that there are assigned addresses and none has |
| WorkerSystem.WhyWorkersFail | src/client/address_worker.rs:157-171 | a worker that failed did so at a fatal primary dial or at the end of a stretch that returned a protocol failure, with that message; a candidate's local material never fails it |
| WorkerSystem.ProtocolFailureFailsTheWorker | src/client/address_worker.rs:202-236 | a closing stretch fails its worker exactly when one of the connection ends the trace gave it is a withdrawal protocol failure, with the first one's message, whatever the intent and shutdown state |
| WorkerSystem.ReconnectsExactly | src/client/address_worker.rs:202-236 | after a stretch the worker reconnects exactly when its ends hold no withdrawal protocol failure, the last one is an error, the intent is Maintain and no shutdown was requested; otherwise, without such a failure, it finishes without error |
| AddressWorkerLoop.ConnectedAddress.constructor | src/client/address_worker.rs:366-391 | opening a stretch records one credit entry and starts in the machine's opening state |
| AddressWorkerLoop.ConnectedAddress.Reconcile | src/client/address_worker.rs:558-583 | the candidate becomes the one the standing hint calls for |
| AddressWorkerLoop.ConnectedAddress.Settle | src/client/address_worker.rs:478-548 | a finished attempt joins exactly under the joining conditions, recording exactly one credit entry, and otherwise leaves the tracker alone; what becomes of the candidate is what the pursuit laws are about |
| AddressWorkerLoop.ConnectedAddress.KeepProtocolFailure | src/client/address_worker.rs:587-597 | only the first withdrawal protocol failure is kept |
| AddressWorkerLoop.ConnectedAddress.Turn | src/client/address_worker.rs:392-475 | each arm of the loop takes the machine's step for that input and tells the tracker exactly that step's effect |
| AddressWorkerLoop.StepErases | src/client/address_worker.rs:366-475 | whether an event can fire, what it does and what it returns do not depend on the connections' tokens |
| AddressWorkerLoop.OverReports | src/client/address_worker.rs:366-475 | a stretch that returns on a schedule reports the first withdrawal protocol failure among the ends it took, or else the last of them |
| AddressWorkerLoop.EventsAreTakenExactly | src/client/address_worker.rs:395-475 | every event of a schedule is taken exactly when the stretch has not returned and its arm can fire, and the stretch returns exactly at the end of its only active connection |
| AddressWorkerLoop.ConnectedAddress.TakeReady | src/client/address_worker.rs:395-475 | one ready event is taken exactly when its arm is enabled, as the machine's step, after anything others did to the tracker |
| AddressWorkerLoop.ConnectedAddress.Run | src/client/address_worker.rs:366-475 | the loop takes exactly the enabled events of its schedule in order and ends in the state, or returns the result, they call for; its history is a run of the stretch machine, and along it the tracker credits the address with its active connections as long as tokens stay apart |
| AddressWorkerLoop.RunConnected | src/client/address_worker.rs:173-200 | the stretch returns exactly when and what its schedule calls for, and the address is announced exactly as long as it has not |
| AddressWorkerLoop.RunRound | src/client/address_worker.rs:127-236 | one turn of the outer loop makes exactly the move its samples, its dial and the schedule of its stretch call for |
| AddressWorkerLoop.RunAddressWorker | src/client/address_worker.rs:113-237 | the worker comes to exactly what its rounds call for, in the first round that does not call for another, and its address stays announced only while it is in a stretch |
| AddressWorkerLoop.RoundsFailExactly | src/client/address_worker.rs:202-208 | a round fails the worker with a message exactly when its primary dial was fatal with it, or its stretch returned and that is the first withdrawal protocol failure among the ends it took |
| AddressWorkerLoop.RoundsRepeatExactly | src/client/address_worker.rs:127-236 | a round calls for another exactly when its dial was cut short without an exit, or was retryable, or its connection was lost while still wanted, and it retries; it stays in its stretch exactly while that has not returned |
| AddressWorkerLoop.OutcomeIsFirst | src/client/address_worker.rs:127-236 | a worker comes to the move of its first round that does not call for another |
| Convergence.StatusMeansSets | src/client/assignment_convergence.rs:30-41 | the status computed from two counts is the one that the sets of assigned and connected addresses call for, and no other |
| Convergence.ChangesTellTheStatus | src/client/assignment_convergence.rs:176-215 | for every call sequence an observer that replays the returned changes always holds the current status |
| Convergence.AnnouncesExactly | src/client/assignment_convergence.rs:176-215 | a call announces a status exactly when the status changed to it |
| Convergence.StartsConverged | src/client/assignment_convergence.rs:43-67 | the same from a new tracker, whose observer begins with Converged |
| Convergence.DropRemovesOnlyItsOwn | src/client/assignment_convergence.rs:86-99 | dropping a guard removes its entry and no other exactly when no other entry of the address carries its token |
| Convergence.ReportedListing | src/client/assignment_convergence.rs:140-160 | an assigned address's listing is the only sorted listing of its credited generations |
| Convergence.OneKeyPerAssigned | src/client/assignment_convergence.rs:140-160 | the report has exactly one key per assigned address, and none for any other |
| Convergence.AssignmentConvergenceTracker.ReplaceAssigned | src/client/assignment_convergence.rs:176-186 | the tracker's new state and the announced change are those of the call in the replay law |
| Convergence.AssignmentConvergenceTracker.ObserveConnected | src/client/assignment_convergence.rs:191-200 | likewise for a connection |
| Convergence.AssignmentConvergenceTracker.ObserveDisconnected | src/client/assignment_convergence.rs:204-215 | likewise for a disconnection |
| Convergence.AssignmentConvergenceTracker.CarryingCredit | src/client/assignment_convergence.rs:114-136 | one entry is added, for that address and generation, under the next token |
| Convergence.AssignmentConvergenceTracker.Release | src/client/assignment_convergence.rs:86-99 | one pass keeps every entry of the address with another token, in order, and drops an emptied address |
| Sorting.SortedListingIsUnique | src/client/assignment_convergence.rs:150-157 | a multiset of generations has one sorted listing only |
| Sorting.LeqIsLexicographic | src/client/assignment_convergence.rs:150-157 | the order is that of text: a prefix first, and otherwise the first difference decides |
| WorkerPool.ReachedAgrees | src/client/address_controller.rs:549-641 | in every state that any sequence of spawns, sends, drops, deaths and completions reaches, every slot has its worker's outstanding future, futures are numbered, and before saturation a live worker owns its address's slot |
| WorkerPool.OneLiveWorkerPerAddress | src/client/address_controller.rs:606-641 | in every reachable state before saturation no two live workers serve one address and no two outstanding futures share a generation |
| WorkerPool.StaleIsMistakenExactly | src/client/address_controller.rs:549-568 | in every reachable state a completion of a replaced worker counts as current exactly when both workers were spawned at or past saturation |
| WorkerPool.StaleClearsPastSaturation | src/client/address_controller.rs:549-568 | a reachable state past saturation in which a replaced worker's completion clears the slot of a live worker |
| WorkerPool.ReapKeeps | src/client/address_controller.rs:549-568 | reaping any outstanding future keeps slots, futures and live workers consistent, and a slot leaves only with its own worker's future |
| WorkerPool.EarliestErrorIs | src/client/address_controller.rs:575-592 | an error handed in stays, and otherwise the error kept is that of the first completion that has one |
| WorkerPool.DrainSucceedsExactly | src/client/address_controller.rs:575-592 | completions that report every slot once, each with its own worker's result, are free of errors exactly when none of those workers fails |
| WorkerPool.LiveWorkersFollowIntent | src/client/address_controller.rs:448-472 | in every reachable state with replaced intent, a live worker owns its address's slot and is told to maintain it exactly when it is desired |
| Controller.AddressController.SpawnWorker | src/client/address_controller.rs:606-641 | a new worker gets the next generation, a future and the only slot of its address |
| Controller.AddressController.Add | src/client/address_controller.rs:377-397 | the address ends with a slot that says Maintain unless its worker died during the call; no slot, or a worker dead on entry, means a new worker; a live worker is never replaced; other slots are untouched |
| Controller.AddressController.Remove | src/client/address_controller.rs:409-418 | the slot ends Retire unless its worker is dead, no slot is created or dropped, and it says no exactly when there was no worker to tell |
| Controller.AddressController.ReAdopt | src/client/address_controller.rs:423-432 | success leaves Maintain unless the worker died; failure changes nothing and means no live Retiring worker |
| Controller.AddressController.ReplaceIntent | src/client/address_controller.rs:448-472 | however workers die meanwhile, every desired address ends with a Maintain slot whose worker was alive on entry or is new, any other slot says Retire or its worker is dead, and a worker still alive keeps its slot |
| Controller.AddressController.Apply | src/client/address_controller.rs:508-519 | at the acknowledgment the tracker's assignment and the controller's intent describe the applied addresses, each with a worker that was alive on entry or is new, whatever workers leave in the tracker at each step; the status is the one the new assignment announced, or the tracker's when looked at again; a worker still alive keeps its slot |
| Controller.AddressController.Reap | src/client/address_controller.rs:549-568 | a completion removes its own future; it is reported, and its slot dropped, exactly when it is current |
| Controller.AddressController.NextCompletion | src/client/address_controller.rs:549-568 | there is a completion exactly when there is a slot; it takes that address's slot and no other, with the result of the future reaped, which before saturation is the slot's own worker's; completions of replaced workers change no slot |
| Controller.AddressController.SkipStale | src/client/address_controller.rs:504-527 | a wait for a completion that is given up may have reaped replaced workers, and changes no slot and reports nothing |
| Controller.AddressController.RequestShutdown | src/client/address_controller.rs:215-220 | afterwards the flag is set and a mode started; the controller made a request exactly when it read no mode, and that turned Graceful into Fast exactly when Graceful started after the read |
| Controller.AddressController.Drain | src/client/address_controller.rs:575-592 | it terminates with no slot, future or live worker; every slot's worker is reaped exactly once, before saturation with its own result, so Ok means none of them failed; it returns the error handed in, or else exactly the first error reaped, and a failure has requested shutdown; a Graceful mode, also one that starts meanwhile, becomes Fast only through another thread or through a stop that read no mode before Graceful started |
| Controller.AddressController.Run | src/client/address_controller.rs:490-542 | it serves the events of its script in turn until one returns, and all of them otherwise; it fails exactly with the error of the first failed completion since it was entered; a Graceful mode that starts while it runs is spared as by a drain |
| Controller.AddressController.Serve | src/client/address_controller.rs:504-542 | an apply leaves assignment and intent at the applied addresses, a closed channel and a set flag return, a completion reaps one slot and returns exactly when it is a failure, and returning has reaped every slot's worker |
| Shutdown.RunKeepsInv | src/shutdown.rs:101-126 | every interleaving of requests and waiters keeps the history, the callers' positions, the claims on the history and the waiters consistent |
| Shutdown.Linearizable | src/shutdown.rs:101-126 | in every reachable state the requests that took effect form a sequential history; every finished call is a distinct one of them, with the response it returned, between its call and its return; calls that did not overlap keep their order; and every effect belongs to a call |
| Shutdown.StopsEscalateExactly | src/client/address_controller.rs:215-220 | every internal stop in every interleaving makes a request exactly when it read no mode, and the request turns Graceful into Fast exactly when Graceful started between its read and its request and was still graceful |
| Shutdown.SomeStopEscalates | src/client/address_controller.rs:215-220 | a run in which an internal stop turns Graceful into Fast |
| Shutdown.StartsOnceEscalatesOnce | src/shutdown.rs:101-126 | exactly the first request starts shutdown, and an escalation follows a graceful start and is followed only by already-Fast answers |
| Shutdown.ResponsesAreExactly | src/shutdown.rs:101-126 | every response follows from the requests alone: the first starts, until Fast is asked for Graceful has already started, the first to ask for Fast after that escalates, and then Fast has already started |
| Shutdown.ModeIsExactly | src/shutdown.rs:57-63 | the stored mode is none without a request, Graceful while all were for Graceful, and Fast from the first for Fast |
| Shutdown.OneCallerStarts | src/shutdown.rs:101-126 | of any two finished calls at most one started shutdown and at most one escalated it |
| Shutdown.ModeAndDeadlineAreStable | src/shutdown.rs:57-75 | the mode never goes back, a start time once written never changes, and a published mode has one |
| Shutdown.DeadlineIsFixedOncePublished | src/shutdown.rs:70-75 | every reader of a published mode computes the same graceful deadline, then and later |
| Shutdown.StartIsFirstWrite | src/shutdown.rs:70-75 | the start time is that of the first write, and the deadline lies the graceful duration after it |
| Shutdown.RetriesAreBounded | src/shutdown.rs:101-126 | a graceful request retries its swap at most once and a fast one at most twice |
| Shutdown.NoLostWakeup | src/shutdown.rs:81-99 | with no caller between its swap and its notify, no start waiter is blocked under a published mode and no fast waiter under Fast |
| Shutdown.WaitersLeaveExactly | src/shutdown.rs:81-99 | a waiter goes on exactly when it checks and its wish has come true |
| OrderlyShutdown.Handle.Attempt | src/shutdown.rs:101-126 | one turn of the compare-and-swap loop takes machine steps only: it completes the call with one operation, or fails its swap without any |
| OrderlyShutdown.Handle.TransitionTo | src/shutdown.rs:101-126 | under interference the loop ends, the history is a run of the machine, exactly one operation of the thread took effect, and the finished call the run records has the response returned |
| OrderlyShutdown.Handle.BeginShutdown | src/client/address_controller.rs:203-210 | the response is the sequential one at the place of its operation, the mode is at least the requested one and has a start time, and the flag is set after it |
| OrderlyShutdown.Handle.RequestShutdown | src/client/address_controller.rs:215-220 | the code of an internal stop is the machine's: it declines or acts as its read says, escalates exactly a Graceful that started after the read, and sets the flag |
| OrderlyShutdown.OnlyStopsSpareGraceful | src/client/address_controller.rs:213-220 | a thread that makes internal stops only turns Graceful into Fast only by stops that read no mode before that Graceful started, and never one that had started before |
| Sse.ChunkingIsInvisible | src/sse.rs:102-131 | from every parser state, any split of the bytes into chunks gives the state, items and first error of one push |
| Sse.FeedIsReadBatch | src/sse.rs:102-190 | feeding bytes one at a time agrees with cutting the text into lines (CR LF, CR or LF) and reading them in turn, with limits, errors and a held-back CR |
| Sse.LinesEndExactly | src/sse.rs:102-131 | a line ends at LF, at CR LF, or at a CR that something else follows, and a trailing CR holds it back |
| Sse.FieldsAreExactly | src/sse.rs:145-153 | a field is what precedes the first colon, its value what follows it less one space, and a line without a colon has no value |
| Sse.LinesFailExactly | src/sse.rs:133-190 | a line fails exactly past the line limit, when it is not UTF-8, past the type limit or past the data limit, in that order and with those numbers |
| Sse.JoinedSplits | src/sse.rs:192-198 | cutting the joined data at LF gives the values back |
| Sse.EventTextDispatches | src/sse.rs:102-198 | the bytes of an event within the limits make a new parser dispatch exactly its type and values, and leave it new |
| Sse.LinesCollect | src/sse.rs:133-190 | non-blank lines collect the data values in order and the last event type, and yield only comments |
| Sse.BlankLineDispatches | src/sse.rs:133-198 | a blank line then dispatches exactly one event, with that type and the LF-joined data, even an empty one, and leaves a new parser |
| Sse.LimitsAlwaysHold | src/sse.rs:102-190 | after any pushes, failed or not, pending line, type and data are within their limits and so is every event the next push dispatches |
| Sse.SseParser.Push | src/sse.rs:102-131 | the parser's fields and result are those of the feeding function the laws are about, an error discarding the call's items |
| Sse.SseParser.EndLine | src/sse.rs:133-190 | ending a line updates the fields and yields the item or error as the specification says |
| Sse.SseParser.DispatchEvent | src/sse.rs:192-198 | the event holds the collected type and joined data, and nothing stays collected |
| TrustedNetworks.MembershipIsInterval | src/proxy_protocol.rs:65-85 | for every accepted network, membership by mask is lying in the interval of its block, for both families and every prefix including 0 |
| TrustedNetworks.MaskingRounds | src/proxy_protocol.rs:65-85 | masking rounds an address down to a multiple of the block size |
| TrustedNetworks.NestedOrDisjoint | src/proxy_protocol.rs:65-85 | any two accepted networks are nested or disjoint as sets of addresses |
| TrustedNetworks.ParsesExactly | src/proxy_protocol.rs:91-125 | a text parses to a network exactly when it reads address, slash, prefix, the prefix fits the family and the address is a multiple of the block size |
| TrustedNetworks.RefusedExactly | src/proxy_protocol.rs:91-125 | a text without a slash, with a bad address, with a bad prefix and with host bits is refused as such, in that order |
| TrustedNetworks.ParsedIsAccepted | src/proxy_protocol.rs:91-125 | whatever parses has a prefix within its width and a base without host bits |
| TrustedNetworks.BaseIsAligned | src/proxy_protocol.rs:91-125 | an accepted base is a multiple of its block size |
| ProxyProtocol.DecodeEncoded | src/proxy_protocol.rs:156-216 | decoding an encoded header, with any legal extra payload and anything after it, returns the carried addresses and leaves exactly what follows |
| ProxyProtocol.RoundTripExactly | src/proxy_protocol.rs:31-55 | addresses survive unchanged exactly when they have no IPv6 flow information and scope |
| ProxyProtocol.DecodedWasEncoded | src/proxy_protocol.rs:156-216 | whatever decodes is an encoded header of the addresses returned, followed by the rest reported |
| ProxyProtocol.HeaderLayout | src/proxy_protocol.rs:31-55 | the header byte for byte: signature, version and command, family, length, source, destination and both ports, high byte first |
| ProxyProtocol.RefusedExactly | src/proxy_protocol.rs:156-216 | every refusal has its cause, the tests in the code's order |
| ProxyProtocol.EncodeProxyV2 | src/proxy_protocol.rs:31-55 | the bytes built are the header, and decode to the carried addresses whatever follows |
| ProxyProtocol.Reader.ReadProxyV2 | src/proxy_protocol.rs:156-216 | however the stream is fragmented, result and bytes left are those of decoding the whole stream |
| TunnelStreams.ReadClientHello | src/client_hello.rs:104-160 | under any fragmentation no byte is lost or repeated, the result is the one the reads that happened call for, each error has its cause, and a ClientHello that completes and cannot overflow is found |
| TunnelStreams.Named | src/client_hello.rs:104-160 | an accepted ClientHello is refused exactly without a name or with an invalid one, and otherwise carries the normalized name |
| TunnelStreams.OverflowsExactly | src/client_hello.rs:104-160 | some fragmentation rejects a completing ClientHello as too long exactly when the longest overshooting read passes the buffer limit |
| TunnelStreams.ReadTunnelStream | src/tunnel_framing.rs:24-34 | the addresses are the header's, the bytes after the header are the buffered ClientHello followed by what is left, and which of the two parts failed is told |
| TunnelStreams.DecodeFramed | src/tunnel_framing.rs:15-22 | a framed stream decodes to its addresses and leaves the Visitor's bytes |
| TunnelStreams.ReplayedTunnelStream.PollRead | src/client/tunnel_stream.rs:345-360 | one read takes the next bytes of buffered-then-inner, at most as many as asked, and none only at the end |
| TunnelStreams.ReplayedTunnelStream.ReadInTurn | src/client/tunnel_stream.rs:345-360 | any sequence of reads yields those bytes in order, none lost and none repeated, and all of them once as many reads had room as there were bytes |
| TunnelStreams.TerminateConservesBytes | src/client/tunnel_stream.rs:345-360 | what was framed, and what came after, is read back with its addresses and replayed from its first byte at any read sizes, completely once enough reads had room; a framed header is never refused, and a ClientHello that completes and cannot overflow is refused exactly for its name |
| TunnelStreams.PassthroughConservesBytes | src/client/tunnel_stream.rs:99-103 | the backend receives exactly the Visitor's bytes, preceded if asked by a header that decodes to the Visitor's addresses; streams are refused only as above |
| FdCapacity.ServerCapacity | src/fd_capacity.rs:10-25 | the limits keep their values if they fit; otherwise they add up to exactly the descriptors available and are the apportionment below |
| FdCapacity.ApportionmentIsUnique | src/fd_capacity.rs:10-25 | floor shares with leftovers in the code's order is one result only, at most two above any floor and never above the configured limit |
| FdCapacity.SharesAreProportional | src/fd_capacity.rs:10-25 | nobody is a whole descriptor below their exact proportional share or more than two above it |
| FdCapacity.SharesLoseAtMostTwo | src/fd_capacity.rs:10-25 | the three floor shares together lose at most two descriptors |
| FdCapacity.HandOut | src/fd_capacity.rs:10-25 | the leftover is handed out completely, never past a configured limit, and a later kind gets some only when the earlier ones are full |
| FdCapacity.ArithmeticFits | src/fd_capacity.rs:10-25 | no 128-bit step overflows and the divisor is positive |
| Hostnames.ValidatesExactlyCanonical | src/hostname.rs:144-181 | validation accepts a hostname exactly when its normal form is canonical, a definition without the label loop, and returns that form |
| Hostnames.RefusedExactly | src/hostname.rs:144-181 | which error a hostname is refused with, the tests in the code's order and label by label |
| Hostnames.NormalIs | src/hostname.rs:118-120 | the normal form is the text without its trailing dots, ASCII capitals in lower case |
| Hostnames.ValidationIsIdempotent | src/hostname.rs:144-181 | validating a validated hostname returns it unchanged |
| Hostnames.NormalizationIsIdempotent | src/hostname.rs:118-120 | normalizing twice is normalizing once, on every string |
| Addresses.ServerRoundTrip | src/server_address.rs:17-35 | every parsed Server address renders to a text that parses back to it |
| Addresses.ServerParsesExactly | src/server_address.rs:17-35 | a text parses to a Server address exactly when it names a host that validates to its hostname, and its port, 443 without one |
| Addresses.ServerRefusedExactly | src/server_address.rs:17-35 | the port is refused first, then a missing host, then the host |
| Addresses.RenderIsInjective | src/client/assignment_convergence.rs:154-157 | distinct addresses render to distinct report keys |
| Addresses.KeysShowThePort | src/client/assignment_convergence.rs:154-157 | a key is the hostname, a colon and the port in decimal, also for port 443 |
| Addresses.ControlRoundTrip | src/control_address.rs:17-64 | every parsed Control address prints to a text that parses back to it, showing a port exactly when it is not the default |
| Addresses.ControlParsesExactly | src/control_address.rs:17-45 | a text parses to a Control address exactly when it has no slash and names a host that validates and a port other than 0 |
| Addresses.ControlRefusesExactly | src/control_address.rs:17-45 | a scheme is refused before a path, both before anything else, and the other refusals have their causes |
| Addresses.PortRoundTrip | src/control_address.rs:17-45 | the printed form of a port parses back to it |
| Addresses.NumbersReadExactly | src/control_address.rs:26-34 | leading zeros and one plus sign change nothing, and anything but digits is refused |

## Left out

- AddressWorkerLoop.RunAddressWorker: takes a finite list of rounds, each with the samples it reads and the events its stretch finds ready; the delay itself and the backoff that chooses it are not modelled, only whether the worker retries after it.
- Controller.AddressController.Run: takes a finite script of ready events in any order, so the preference among several ready events is not modelled.
- Shutdown.NoLostWakeup: waiting is modelled by the machine's steps, not as methods, since a waiter need not return.
- ConnectedStretch.JoinsWithinOneSubscription: assumes that one connection's interruption counter only grows, which the hint subscription outside this model guarantees.
- Convergence.AssignmentConvergenceTracker: the notification that a report changed is not modelled, only the report.
- TunnelStreams.ReadClientHello: reader failures other than an early end are not modelled; the TLS acceptor is an arbitrary function of the bytes given to it.
- A worker that panics, and so skips its Disconnected announcement.
- Log lines, reasons in log lines, the ready message, and the flag that only serves a log line in a waiting candidate.
- Static mode, whose workers have no tracker, and the seeding of configured addresses, which is a loop of `Add`.
- The Client's own descriptor capacity, startup wiring, configuration files and certificates: easy members.
- The Server side, the Tunnel transport and the managed control session: I/O around the modelled core.
