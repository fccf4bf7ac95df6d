# Kepler, verified

A Dafny model of the parts of Kepler, a process orchestrator, whose correctness is not
obvious from reading one function: the dependency scheduler, the log streaming protocol
between `kepler logs` and the daemon, the multiplexed connection under every request, the
`${{ }}$` expression scanner with its snapshot printer, and a handful of loops with subtle
state (file watcher debounce, hook lists, permission aliases, durations, Lua tables).

`dafny verify dfyconfig.toml` checks everything. Nothing here runs Kepler.

## How the code is modelled

Code that loops or updates variables is a method with the source's own loops and branches,
proved against a specification; code that only computes is a function. Where one run of a
loop matters as a whole (streaming, debounce, hooks, the connection) the environment is a list
of turns, passes or steps, the specification is the state after that list, and the theorems
hold for every list.

| part | modules |
|---|---|
| dependency scheduler | `Graphs`, `TopologicalSort`, `NameOrder`, `StartLevels`, `ServiceClosure`, `DependencyConditions` |
| log streaming | `LogServer`, `LogStream`, `LogStreamGuarantees`, `LogStreamExits`, `ServiceTable` |
| connection | `Framing`, `Multiplex`, `MultiplexInvariant`, `MultiplexDelivery`, `MultiplexGuarantees` |
| dynamic expressions | `Text`, `ExprTokens`, `TokenRoundTrip`, `DynamicExprs` |
| smaller machines | `Debounce`, `HookList`, `Aliases`, `Durations`, `LuaTable` |
| shared | `Wrappers`, `Sequences` |

Choices that matter when reading the theorems:

- Hash maps and hash sets are visited in an arbitrary order, and the ready queue of the
  topological sort takes a freed service at an arbitrary position. Every result holds for
  all such orders.
- A log is the whole append-only history. Each query of the daemon sees an arbitrary prefix of
  it, two queries of one request possibly different ones. Which entries match the request's
  services, filter and time range is an arbitrary predicate `q`. Whether the writer still
  holds entries back is an input.
- Time, timeouts, signals, quiescence, condition results and step outcomes are inputs.
- A connection is a state machine. Any interleaving of callers, both reader tasks and the
  handlers is a run. A channel with the socket behind it is one queue.
- Machine widths are written out: 64-bit request ids and durations, 32-bit frame lengths,
  16-bit service ids.

## Where a promise does not hold

Each of these is stated as the exact condition under which the promise holds, and the failures
that are not a matter of size have a concrete example.

- **Unclosed `${{`** (`kepler-daemon/src/config/expand.rs:71`). The slice for an unclosed marker
  starts at the old offset, so text before the marker is emitted twice. The tokens tile their
  input, and the snapshot round trip works, exactly when no unclosed marker has text in front
  (`CoversIffNothingBefore`, `RoundTripIffNothingBefore`, `ClassifyRoundTrip`, `UnclosedExample`).
- **Hook recovery** (`docs/hooks.md:158-161`, `kepler-daemon/src/hooks.rs:401`). Only a step whose
  own `if:` called `failure()` is said to handle a failure. The flag is kept between steps,
  so a later `if: true` step can use a left-over one and swallow the error. The loop keeps the rule
  exactly when no such step succeeds while a failure stands behind a `failure()` step that
  did not handle one, with no truthy condition between (`DocumentedIffNoSwallow`,
  `CleanupSwallowsError`).
- **Unreachable conditions** (`kepler-daemon/src/deps.rs:378-383`, `docs/dependencies.md:98-110`).
  "Can never be met" holds for the end of a process (`UnreachableExactly`). A start-up failure, an
  explicit stop or an allowed skip still meets the condition, and nothing else does
  (`UnreachableMeets`, `UnreachableYetMet`). `docs/dependencies.md:114` names the first of them:
  the daemon asks only once the dependency is running, because a spawn failure could still occur.
- **Waking on disconnect** (`kepler-protocol/src/client.rs:88-92`). A call that passed the connected
  check can register after the pending map was cleared. It then waits for good exactly when
  the writer task still took its frame; with the writer gone it returns an error. All calls
  registered before the clear are woken (`LossWakesTheRegistered`, `WaitsForGood`, `LateCallIsHeld`).
- **Draining before exit** (`kepler-cli/src/main.rs:1685-1687`). After quiescence the stream does not
  wait for entries the writer still holds, and loses them (`FollowDropsBacklog`). What a stream that
  ends on its freshest answer loses is exactly what was not stored when that answer was read
  (`LostIffUnseen`). One-shot mode gives up on a backlog only after 80 answers in a row that found
  nothing stored (`OneShotWaitsForFlush`).
- **Debounce** (`kepler-daemon/src/watcher.rs:229-231`). Ignored events skip the emit block, so
  any number of them hold an expired path back (`IgnoredEventsDelay`). A pass sends such a path
  exactly when it reaches the block and the send does not fail (`SentWhenDue`).
- **Widths.** A batch limit of zero prints nothing (`CompleteIffLimitPositive`). Server frames are
  read back exactly below 2^32 bytes (`MisreadIffTooWide`). Durations survive formatting exactly
  for whole milliseconds below 2^64 (`FormatReadsBack`). Service ids are right exactly for at most
  2^16 services, which a chunk of 5000 entries guarantees (`Compact`). Request ids are fresh until
  2^64 of them were handed out (`IdsAreFresh`, `CounterGoesRound`).

## Model

| member | source | states |
|---|---|---|
| `TopologicalSort.Sort` | kepler-daemon/src/deps.rs:115-200 | succeeds exactly when all dependencies exist and there is no cycle, with each service once and after its dependencies; otherwise names a dependency that is really missing, or exactly the services from which a cycle can be reached |
| `TopologicalSort.FindMissing` | kepler-daemon/src/deps.rs:118-128 | finds nothing only if every dependency names a service, and otherwise a true missing pair |
| `TopologicalSort.BuildIndex` | kepler-daemon/src/deps.rs:130-154 | in-degrees are the lengths of the dependency lists and there is one reverse edge per entry, repeated entries included |
| `TopologicalSort.IndexService` | kepler-daemon/src/deps.rs:140-154 | adding the entries of one service keeps in-degrees and reverse edges in agreement |
| `TopologicalSort.InitialQueue` | kepler-daemon/src/deps.rs:156-164 | queues exactly the services without dependencies, each once |
| `TopologicalSort.Release` | kepler-daemon/src/deps.rs:171-183 | in-degrees never go below zero, and afterwards count the unmet entries; whatever the insertion index, taken and queued are exactly the services with none |
| `TopologicalSort.Drain` | kepler-daemon/src/deps.rs:168-184 | takes services once, dependencies first; whatever it leaves reaches a cycle |
| `TopologicalSort.LeftoversReachCycle` | kepler-daemon/src/deps.rs:186-197 | a service left when the queue is empty reaches a cycle, by a chain that must repeat |
| `TopologicalSort.CompleteIffAcyclic` | kepler-daemon/src/deps.rs:186-197 | the count test is exact: the result is as long as the graph if and only if there is no cycle, and the rest is what reaches one |
| `TopologicalSort.OrderIsAcyclic` | kepler-daemon/src/deps.rs:168-184 | nothing that was listed after its dependencies can reach a cycle |
| `TopologicalSort.ReverseStartIsStop` | kepler-daemon/src/deps.rs:15-19 | the reverse of any start order lists each service before everything it depends on |
| `TopologicalSort.StopOrder` | kepler-daemon/src/deps.rs:15-19 | succeeds exactly where a start order exists, dependents first; same errors as the start order |
| `NameOrder.SortNames` | kepler-daemon/src/deps.rs:106-109 | strictly ascending by character codes, with the same names |
| `NameOrder.AscendingUnique` | kepler-daemon/src/deps.rs:106-109 | only one ascending list has given elements |
| `StartLevels.GetStartLevels` | kepler-daemon/src/deps.rs:30-112 | terminates on every graph and succeeds exactly where the topological sort does; level n lists, in name order, the services whose longest dependency chain has length n, each service once, no level empty; a cycle error names a service that lies on a cycle |
| `StartLevels.ComputeLevel` | kepler-daemon/src/deps.rs:49-90 | the memo stays right on success and on failure, the stack is restored on success, and an error is a true cycle or a true missing service |
| `StartLevels.LevelAboveDeps` | kepler-daemon/src/deps.rs:73-83 | the level found is one above the highest dependency, zero without any |
| `StartLevels.MemoIsLevel` | kepler-daemon/src/deps.rs:85-89 | a memo entry is the length of the longest dependency chain from its service |
| `StartLevels.NoLevelSkipped` | kepler-daemon/src/deps.rs:99-104 | every level below an occupied one is occupied |
| `StartLevels.HighestLevel` | kepler-daemon/src/deps.rs:99-99 | the maximum, reached by some service, zero for none |
| `StartLevels.FillBuckets` | kepler-daemon/src/deps.rs:100-104 | each bucket lists, once each, the services of its level |
| `StartLevels.SortBuckets` | kepler-daemon/src/deps.rs:106-109 | each bucket keeps its services and becomes ascending |
| `StartLevels.LevelsDetermined` | kepler-daemon/src/deps.rs:98-111 | the result depends on the graph alone; no hash map order shows |
| `ServiceClosure.GetServiceWithDeps` | kepler-daemon/src/deps.rs:204-223 | returns exactly the reflexive-transitive dependencies in start order; which error comes is decided by the closure alone: unknown service, a missing one behind it, or a cycle it reaches |
| `ServiceClosure.CollectDeps` | kepler-daemon/src/deps.rs:225-249 | terminates on cycles; what it adds is reachable and, on success, closed under dependencies |
| `ServiceClosure.CollectedIsClosure` | kepler-daemon/src/deps.rs:225-249 | a closed reachable set is the whole closure |
| `ServiceClosure.RestrictedVerdict` | kepler-daemon/src/deps.rs:215-222 | the filtered map misses no dependency and is acyclic exactly when the service reaches no cycle in the full one, so a later error can only be a cycle in the closure |
| `DependencyConditions.VerdictsPartition` | kepler-daemon/src/deps.rs:258-446 | of a finished service exactly one holds: condition met, permanently unsatisfied, restart coming; of an active one neither of the last two, and a service without a state is never given up |
| `DependencyConditions.StartedIsRunning` | kepler-daemon/src/state.rs:43-61 | `service_started` is met exactly by a running service; every service that was not skipped is exactly one of started, stopped and in transit, and active exactly if started or in transit |
| `DependencyConditions.HealthOfStarted` | kepler-daemon/src/deps.rs:279-287 | of the started services, exactly those with the healthy status meet `service_healthy`, and exactly the unhealthy ones that were healthy before meet `service_unhealthy` |
| `DependencyConditions.ConditionsRelate` | kepler-daemon/src/deps.rs:258-321 | which conditions imply or exclude each other under any filter; a stopped service failed or succeeded unless it was stopped explicitly; the filter judges the exit code, -1 without one |
| `DependencyConditions.FilterAccepts` | kepler-daemon/src/config/deps.rs:64-69 | an empty filter accepts every code, a range exactly its codes with both ends, a list what one of its parts accepts |
| `DependencyConditions.UnreachableExactly` | kepler-daemon/src/deps.rs:384-422 | a condition is called unreachable exactly when, under no filter, an end of a process can meet it under the policy |
| `DependencyConditions.UnreachableMeets` | kepler-daemon/src/deps.rs:378-446 | the states that meet such a condition, for any filter: an allowed skip, or a failed start or explicit stop in which it holds, and no others |
| `DependencyConditions.UnreachableYetMet` | kepler-daemon/src/deps.rs:378-422 | so some state meets it if and only if skips are allowed, it asks for success, or the filter accepts some code |
| `LogServer.AfterSound` | kepler-daemon/src/logs/log_reader.rs:164-215 | a forward read is exactly the matching entries above the cursor, in id order |
| `LogServer.RaiseCursor` | kepler-daemon/src/logs/log_reader.rs:164-215 | raising the cursor to a point between two due entries leaves exactly those above it |
| `LogServer.AdvanceCursor` | kepler-daemon/src/main.rs:1402-1404 | reading on from the id of an entry leaves exactly what stands behind it |
| `LogServer.StepBackCursor` | kepler-daemon/src/main.rs:1380-1387 | reading from one below the id of an entry leaves it and what stands behind it |
| `LogServer.ResponseContinues` | kepler-daemon/src/main.rs:1371-1405 | within chunk and limit, the batch followed by what is behind the returned cursor is what was behind the old one, though the log grows between the two queries |
| `LogServer.ResponseExhausts` | kepler-daemon/src/main.rs:1396-1405 | a response without more, or an empty one, contains all its read could see |
| `LogServer.ResponseFills` | kepler-daemon/src/main.rs:1374-1404 | a response stops short of limit and chunk only where its read saw no more, and reports more exactly for a backlog or for matches it left |
| `LogServer.ShortTailIsWhole` | kepler-daemon/src/main.rs:1377-1387 | a tail request for more than there is makes every matching entry due |
| `LogServer.TailWindow` | kepler-daemon/src/logs/log_reader.rs:101-156 | from the resolved start the log reads as the last `count` matching entries, then newer ones |
| `LogStream.StreamLogs` | kepler-cli/src/main.rs:1691-1885 | the loop leaves printed entries, cursor and exit reason as `Run` gives them for these turns |
| `LogStream.Iterate` | kepler-cli/src/main.rs:1707-1882 | one pass, with every response kind and every wait, is one `Step` |
| `LogStream.TakeAnswer` | kepler-cli/src/main.rs:1708-1772 | the batch printed, and when data counts as more or as pending flush |
| `LogStream.PrintMovesAlong` | kepler-cli/src/main.rs:1758-1768 | a batch, cut or not, continues the output along what is due; printed and still owed keep their sum, and only a batch cut by the total leaves the cursor ahead |
| `LogStream.EveryRunOnCourse` | kepler-cli/src/main.rs:1707-1779 | in every run, until the total is reached, what was printed and what lies behind the cursor make up all that is due |
| `LogStream.NoGapNoRepeat` | kepler-cli/src/main.rs:1707-1779 | in every run the output is a prefix of the matching entries behind the anchor: nothing skipped, repeated or reordered, whatever times out, retries or is appended |
| `LogStream.NeverMoreThanTotal` | kepler-cli/src/main.rs:1759-1778 | `--head N` and `--tail N` never print more than N |
| `LogStream.CaughtUp` | kepler-daemon/src/main.rs:1396-1404 | what an older view holds behind the anchor is already printed or still in view |
| `LogStream.DrainedPrintedAll` | kepler-cli/src/main.rs:1771-1880 | a run that ends on an answer, and not on the total, has printed all that answer could see |
| `LogStreamGuarantees.StartsBehindGivenId` | kepler-cli/src/main.rs:1675-1700 | with a given start id only later matching entries are printed |
| `LogStreamGuarantees.FollowSkipsThePast` | kepler-cli/src/main.rs:1699-1732 | in follow mode exactly the matching entries not yet stored when it was anchored are due, and no others are printed |
| `LogStreamGuarantees.OthersStartAtBeginning` | kepler-daemon/src/main.rs:1388-1394 | without anchor, tail or follow, every matching entry is due |
| `LogStreamGuarantees.TailPrintsWindow` | kepler-cli/src/main.rs:1708-1778 | `--tail N` prints a beginning of the last N as of the tail request, and all of them once N are printed, also when N exceeds a chunk |
| `LogStreamGuarantees.TailIsExact` | kepler-cli/src/main.rs:1708-1778 | a tail that ends on an answer no older than its first printed exactly the last N |
| `LogStreamGuarantees.ShortTailStartsAtBeginning` | kepler-daemon/src/main.rs:1377-1387 | `--tail N` with fewer than N matches has every matching entry due |
| `LogStreamGuarantees.ShortTailIsExact` | kepler-cli/src/main.rs:1708-1778 | and prints every match its last, freshest answer saw, up to N |
| `LogStreamGuarantees.QuietTurnProgresses` | kepler-cli/src/main.rs:1824-1844 | from any state, an answer from the final log ends the run or lowers entries left, then flush waits left |
| `LogStreamGuarantees.OneShotEnds` | kepler-cli/src/main.rs:1824-1844 | whatever happened before, a one-shot run ends once the log has stopped growing and 81 more requests per stored entry, and 81 besides, were answered, however many time out |
| `LogStreamGuarantees.OneShotIsComplete` | kepler-cli/src/main.rs:1824-1844 | and has then printed all that was due, or the first N of it, with appends, older views and timeouts before |
| `LogStreamGuarantees.ZeroLimitPrintsNothing` | kepler-cli/src/main.rs:1661-1662 | a limit of zero prints nothing in any run |
| `LogStreamGuarantees.CompleteIffLimitPositive` | kepler-cli/src/main.rs:1661-1662 | a one-shot run that ended after the log stopped growing is complete exactly for a positive limit, or if nothing was due |
| `LogStreamGuarantees.StallCounted` | kepler-cli/src/main.rs:1824-1844 | while a one-shot run goes on, its flush waits count the answers since the last progress, each of them empty with a backlog reported |
| `LogStreamGuarantees.OneShotWaitsForFlush` | kepler-cli/src/main.rs:1822-1844 | a one-shot run that ends with a backlog reported had spent its budget: 80 answers since anything was printed, each empty with a backlog |
| `LogStreamGuarantees.FollowDropsBacklog` | kepler-cli/src/main.rs:1685-1687 | for every matching entry, a run that ends after quiescence with that entry due and not printed |
| `LogStreamGuarantees.DrainedIsExact` | kepler-cli/src/main.rs:1769-1881 | a run that ended on its freshest answer, short of a total, printed exactly what that answer's read saw behind the anchor |
| `LogStreamGuarantees.LostIffUnseen` | kepler-cli/src/main.rs:1769-1881 | of the entries due in the whole log it printed exactly those stored at that read, so it is complete if and only if all were |
| `LogStreamExits.ExitsExactly` | kepler-cli/src/main.rs:1717-1884 | each exit reason if and only if the turn is of its kind: a refusal, an error, a shutdown seen at a pause, or a natural end (disconnect, nothing to wait for, the total, or all read and finished); in all other cases the loop goes on |
| `LogStreamExits.QuiescentIffSignalled` | kepler-cli/src/main.rs:1793-1805 | a following stream counts as quiescent exactly if the signal came in one of its waits |
| `LogStreamExits.FollowGoesOn` | kepler-cli/src/main.rs:1845-1880 | a following stream without a total never ends on answers and timeouts alone |
| `ServiceTable.Compact` | kepler-daemon/src/main.rs:1431-1452 | the table has each service once; looking up ids gives every entry its service exactly for at most 2^16 services, hence for every chunk |
| `ServiceTable.LosslessIffSmall` | kepler-cli/src/main.rs:1889-1910 | the client's lookup is right for all entries exactly when no id was cut |
| `Framing.ReadExact` | kepler-protocol/src/client.rs:79-103 | n bytes if there are n, in order and none lost, whatever the pieces they arrive in |
| `Framing.ReadFrames` | kepler-protocol/src/server.rs:303-343 | what is read depends on the bytes, not on how they were split |
| `Framing.BigEndianRoundTrip` | kepler-protocol/src/protocol.rs:704-711 | a 32-bit length is read back |
| `Framing.FramesReadBack` | kepler-protocol/src/protocol.rs:684-716 | any list of payloads, framed and concatenated, is read back as that list |
| `Framing.BrokenStreamIsPrefix` | kepler-protocol/src/client.rs:79-103 | a stream cut anywhere yields exactly the payloads whose frames arrived whole, and tells a cut before the next length from one behind it |
| `Framing.MisreadIffTooWide` | kepler-protocol/src/protocol.rs:704-711 | a server frame is read back exactly when its payload is below 2^32 bytes |
| `Framing.EnvelopeAccepted` | kepler-protocol/src/protocol.rs:684-694 | encoding succeeds exactly up to the maximum, and the server then reads the payload back |
| `Framing.RefusalJustified` | kepler-protocol/src/server.rs:303-343 | what the client refuses to encode, the server would have refused to read |
| `MultiplexInvariant.NextKeeps` | kepler-protocol/src/client.rs:79-209 | every step of client or server keeps the invariant that ties calls, ids, pending map, envelopes, handlers and queued messages together |
| `MultiplexInvariant.EveryRunKeepsInv` | kepler-protocol/src/server.rs:289-391 | so does every interleaving, until the id counter wraps |
| `MultiplexDelivery.NextDelivers` | kepler-protocol/src/server.rs:289-391 | every step keeps that the queue holds what handlers emitted and returned, and that a return that was read is its call's reply |
| `MultiplexDelivery.EveryRunDelivers` | kepler-protocol/src/client.rs:105-126 | so does every interleaving, until the id counter wraps |
| `MultiplexDelivery.ReplyIsDelivered` | kepler-protocol/src/client.rs:107-110 | the return of a call's handler, once read, is the call's reply |
| `MultiplexDelivery.RepliedIffRead` | kepler-protocol/src/client.rs:107-113 | a call has a reply if and only if the return of its handler was read |
| `MultiplexDelivery.EventsAreThoseEmitted` | kepler-protocol/src/client.rs:114-121 | by then it has received exactly the events its handler emitted before returning, in order |
| `MultiplexDelivery.IdleServes` | kepler-protocol/src/client.rs:175-209 | from any idle state, a request goes through to its event and its reply, and the connection is idle again |
| `MultiplexGuarantees.ReplyIsFromOwnHandler` | kepler-protocol/src/client.rs:105-126 | a reply is the return of the one handler of that very request, and all events queued for it before arrived before, in order |
| `MultiplexGuarantees.EventsSoFar` | kepler-protocol/src/client.rs:114-121 | before the reply a caller has exactly the events read so far for its id |
| `MultiplexGuarantees.IdsAreFresh` | kepler-protocol/src/client.rs:186-194 | no two calls share an id, and id 0 of server-side parse errors is never pending |
| `MultiplexGuarantees.CounterGoesRound` | kepler-protocol/src/client.rs:186-186 | the counter wraps at 2^64, where the next id is 0 |
| `MultiplexGuarantees.AtMostOneReply` | kepler-protocol/src/client.rs:107-113 | what a call with a reply has received never changes again |
| `MultiplexGuarantees.LossWakesTheRegistered` | kepler-protocol/src/client.rs:88-103 | in every run after a loss was cleared, exactly those calls wait that registered later and whose frame the writer took |
| `MultiplexGuarantees.WaitsForGood` | kepler-protocol/src/client.rs:199-206 | and such a call still waits in every continuation |
| `MultiplexGuarantees.LateCallIsHeld` | kepler-protocol/src/client.rs:182-206 | an interleaving with such a call, and the same one refused because the writer had stopped |
| `MultiplexGuarantees.NoCallAfterLoss` | kepler-protocol/src/client.rs:179-184 | from the moment the loss is marked, every further call fails at once, in every continuation |
| `ExprTokens.ParseExprTokens` | kepler-daemon/src/config/expand.rs:51-83 | the index-based loop computes the recursive scan |
| `ExprTokens.PrintTokens` | kepler-daemon/src/config/expr.rs:133-146 | the string built up is the concatenation of the printed tokens |
| `ExprTokens.CoversIffNothingBefore` | kepler-daemon/src/config/expand.rs:51-83 | literals and marked expressions tile the input exactly when no unclosed marker has text before it |
| `TokenRoundTrip.WellClosedIsNeat` | kepler-daemon/src/config/expand.rs:51-83 | on a well-closed string no literal has `${{`, no expression has `}}$`, expressions are trimmed and no two literals meet |
| `TokenRoundTrip.TilingUnique` | kepler-daemon/src/config/expand.rs:51-83 | a string has at most one such tiling |
| `TokenRoundTrip.WellClosedTokens` | kepler-daemon/src/config/expand.rs:51-83 | so the tokens of a well-closed string are fully characterised without the scan |
| `TokenRoundTrip.PrintIsIdentity` | kepler-daemon/src/config/expr.rs:133-146 | without any closing marker, and nothing before opening ones, the print is the input |
| `TokenRoundTrip.RoundTripIffNothingBefore` | kepler-daemon/src/config/expr.rs:133-146 | scanning the print gives the same tokens exactly when no unclosed marker has text before it |
| `DynamicExprs.FindStandalone` | kepler-daemon/src/config/expand.rs:87-116 | finds the expression exactly when it stands alone among blank literals |
| `DynamicExprs.Classify` | kepler-daemon/src/config/expr.rs:47-71 | the kind a value gets, none for plain ones |
| `DynamicExprs.DynamicExactly` | kepler-daemon/src/config/expr.rs:47-71 | dynamic are exactly strings with a marker and strings under `!lua`, whose text is the code |
| `DynamicExprs.StandaloneExactly` | kepler-daemon/src/config/expand.rs:85-116 | a string is a standalone expression if and only if, blanks aside, it is one marked body without a closing marker, and the expression is that body trimmed |
| `DynamicExprs.ClassifyRoundTrip` | kepler-daemon/src/config/expr.rs:128-154 | the snapshot of a classified string classifies to the same value exactly when no unclosed marker has text before it |
| `DynamicExprs.WellClosedRoundTrip` | kepler-daemon/src/config/expr.rs:128-154 | in particular whenever every marker is closed |
| `DynamicExprs.LuaRoundTrip` | kepler-daemon/src/config/expr.rs:128-154 | a `!lua` value comes back unchanged |
| `DynamicExprs.UnclosedExample` | kepler-daemon/src/config/expand.rs:69-74 | `a${{` yields its text twice and does not come back |
| `Debounce.DebounceLoop` | kepler-daemon/src/watcher.rs:214-280 | the loop leaves map, deadline and sent batches as `Run` gives them |
| `Debounce.InsertPaths` | kepler-daemon/src/watcher.rs:232-235 | a path keeps its first sighting |
| `Debounce.Drain` | kepler-daemon/src/watcher.rs:261-267 | splits the map into expired and waiting, nothing lost |
| `Debounce.Earliest` | kepler-daemon/src/watcher.rs:269-273 | the next deadline is the first expiry of a waiting path, none without one |
| `Debounce.EmitReady` | kepler-daemon/src/watcher.rs:255-279 | sends the expired paths in one batch, or stops if that fails |
| `Debounce.EveryRunSound` | kepler-daemon/src/watcher.rs:214-280 | under a monotone clock no path is sent before its 500 ms, windows of one path do not overlap, and the deadline is never later than any waiting path's expiry |
| `Debounce.EveryChangeAccounted` | kepler-daemon/src/watcher.rs:214-280 | every change received falls into a window that is waiting or was sent |
| `Debounce.EveryWindowSeen` | kepler-daemon/src/watcher.rs:214-280 | and every window began with a change received |
| `Debounce.SentWhenDue` | kepler-daemon/src/watcher.rs:255-279 | a pass after expiry sends the waiting path and removes it if and only if it reaches the emit block and the send does not fail |
| `Debounce.GoesOn` | kepler-daemon/src/watcher.rs:214-280 | the loop ends on a closed channel, and otherwise only when a batch with an expired path cannot be sent, always if one was due at the deadline check |
| `Debounce.IgnoredChangeNothing` | kepler-daemon/src/watcher.rs:229-231 | passes with ignored events change nothing, however many |
| `Debounce.IgnoredEventsDelay` | kepler-daemon/src/watcher.rs:229-231 | an expired path waits, unsent, through any number of them, and goes with the next pass if and only if that reaches the emit block and the send does not fail |
| `HookList.RunServiceHook` | kepler-daemon/src/hooks.rs:306-482 | returns the stored error or the outputs of the run over these steps |
| `HookList.FlagMatchesError` | kepler-daemon/src/hooks.rs:306-482 | a failure is flagged exactly while an error is stored |
| `HookList.ErrorIsFirstOutstanding` | kepler-daemon/src/hooks.rs:306-482 | the error returned is that of the earliest failure no recovery has followed; without one every failure was recovered from |
| `HookList.UnconditionedNeedsSuccess` | kepler-daemon/src/hooks.rs:389-395 | a step without `if:` runs if and only if no failure is outstanding |
| `HookList.ConditionDecides` | kepler-daemon/src/hooks.rs:396-420 | a step with `if:` runs if and only if it is true, truthy or could not be evaluated for want of a handle, failures or not |
| `HookList.RunsUnlessForbidden` | kepler-daemon/src/hooks.rs:388-420 | if no step fails, every step runs whose condition does not forbid it |
| `HookList.SuccessReturnsCaptures` | kepler-daemon/src/hooks.rs:447-481 | and the result is, under each name, the last capture among those steps, and no other name |
| `HookList.OutputIsLastCapture` | kepler-daemon/src/hooks.rs:447-454 | under a name stands what the last capturing step wrote |
| `HookList.NoOtherOutput` | kepler-daemon/src/hooks.rs:447-454 | and no name that no step captured |
| `HookList.AgreesBefore` | kepler-daemon/src/hooks.rs:309-446 | up to the first swallowing step the loop agrees with the documented rule, and its flag is set exactly if some handler left it |
| `HookList.DocumentedIffNoSwallow` | kepler-daemon/src/hooks.rs:400-446 | the loop agrees with the documented rule at every prefix if and only if no plain-true step succeeds, while by the rule a failure stands, behind a `failure()` step that handled none, with no truthy condition between |
| `HookList.StaleNeedsPlainTrue` | kepler-daemon/src/hooks.rs:400-446 | only `if: true`, or a condition that could not be evaluated, can do so |
| `HookList.CleanupSwallowsError` | kepler-daemon/src/hooks.rs:400-446 | three steps whose error is lost that way |
| `Aliases.ValidateRights` | kepler-daemon/src/permissions.rs:292-313 | accepts exactly lists of known names, otherwise names an unknown one |
| `Aliases.ResolveEntry` | kepler-daemon/src/permissions.rs:332-383 | terminates on cyclic aliases; succeeds exactly if all chains are short and end in known names, and restores the chain; an error names a true unknown, cycle or over-deep chain |
| `Aliases.ResolveAll` | kepler-daemon/src/permissions.rs:374-378 | the same for all entries of an alias together |
| `Aliases.ResolveAliases` | kepler-daemon/src/permissions.rs:321-330 | the result is exactly the rights reachable through aliases |
| `Aliases.FindShadow` | kepler-daemon/src/permissions.rs:396-410 | finds nothing exactly if no alias takes the name of a right or of `all` |
| `Aliases.CheckAlias` | kepler-daemon/src/permissions.rs:412-420 | accepts one alias exactly if it resolves |
| `Aliases.ValidateUserAliases` | kepler-daemon/src/permissions.rs:392-423 | accepts exactly alias maps without shadowing in which every alias resolves |
| `Aliases.ExpandAllow` | kepler-daemon/src/permissions.rs:449-455 | for validated aliases it succeeds exactly on lists of known names; always exactly the reachable rights |
| `Aliases.CycleNeverResolves` | kepler-daemon/src/permissions.rs:356-363 | no depth is enough for an alias on a cycle |
| `Aliases.ResolvableMeans` | kepler-daemon/src/permissions.rs:332-383 | resolving succeeds exactly when every chain of aliases is within the limit and ends in a known name |
| `Aliases.RightsAreGranted` | kepler-daemon/src/permissions.rs:332-383 | the rights collected by recursion are those some chain reaches |
| `Aliases.GrantsDistribute` | kepler-daemon/src/permissions.rs:449-455 | a concatenated list grants the union of what its parts grant |
| `Durations.ParsesWhatItDenotes` | kepler-daemon/src/config/duration.rs:7-36 | accepts exactly trimmed digits with a unit in either case, seconds by default, below 2^64 milliseconds, with that value |
| `Durations.MillisReadBack` | kepler-daemon/src/config/duration.rs:39-58 | any 64-bit number of milliseconds is formatted so that it parses back |
| `Durations.FormatReadsBack` | kepler-daemon/src/config/duration.rs:39-58 | formatted text always parses, and to the same duration exactly for whole milliseconds below 2^64 |
| `Durations.CanonicalForm` | kepler-daemon/src/config/duration.rs:7-58 | formatting a parsed string gives an equivalent string that is its own format |
| `Durations.LargestUnit` | kepler-daemon/src/config/duration.rs:46-57 | the unit used divides evenly and no larger one does |
| `LuaTable.Inspect` | kepler-daemon/src/config/lua.rs:66-86 | array flag, count and highest index of the keys |
| `LuaTable.CountEqualsMaximum` | kepler-daemon/src/config/lua.rs:88-88 | distinct positive keys not above their number are 1 to n |
| `LuaTable.ArrayTest` | kepler-daemon/src/config/lua.rs:88-88 | the branch test holds exactly when the keys are 1 to n |
| `LuaTable.ConvertArray` | kepler-daemon/src/config/lua.rs:90-98 | no lookup hits a hole; every element lands at its place |
| `LuaTable.ConvertMap` | kepler-daemon/src/config/lua.rs:101-130 | every pair is kept under the same text or number as key, none overwritten |
| `LuaTable.LuaToYaml` | kepler-daemon/src/config/lua.rs:48-138 | succeeds exactly on values with a YAML form and then keeps every entry of every nested table |
| `LuaTable.PutNew` | kepler-daemon/src/config/lua.rs:128-128 | inserting a new key keeps all others in order |

## Left out

- Terminal output, progress bars, tables and CLI argument parsing: display only.
- Process spawning, signals, cgroups, users and limits: foreign calls.
- SQLite, bincode, serde, YAML text and the Lua VM: payloads are bytes, entries and values are given.
- The log writer, log retention, truncation and `logs --clear`: the log is append-only here.
- The filter DSL and SQL fragments: a query is an arbitrary predicate. Reading a log whose database cannot be opened is an empty view.
- Raw mode of a batch, which skips the service table, and the timestamp, level, hook and attribute fields, which are copied.
- TopologicalSort.Sort: does not state the lexicographic choice among ready services. The queue starts ascending while the insertion search assumes descending order, so there is no such order to state.
- `detect_cycles` and `is_failure_handled`: one call and one comparison over what is modelled.
- DependencyConditions.VerdictsPartition: is about one snapshot; the source reads the state again between two of its checks.
- `DependsOn` list and map forms: a service's dependencies are given as one list, in which names may repeat.
- The orchestrator, config actor, registry, authentication, ACL lookup and persistence: single-branch checks, I/O or field copying.
- MultiplexInvariant.EveryRunKeepsInv: holds while fewer than 2^64 ids were handed out. What happens after the counter wraps is not modelled.
- Multiplex: that a step which can be taken is taken at some time. The events a handler emits after it returned are not promised to arrive.
- Debounce.DebounceLoop: leaves out suppression of events while a restart is running, which is decided before an event gets here.
- HookList.RunServiceHook: leaves out the evaluation contexts passed to conditions and the early return when a phase has no steps; captured output is one value per step name.
- The names of the daemon's rights (`kepler-daemon/src/permissions.rs:18-56`): the alias results hold for any set of rights.
- Error texts: errors carry the names they mention, not the wording.
- LuaTable.LuaToYaml: values are finite trees. A Lua table that contains itself is not modelled.
