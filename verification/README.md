# Verified models of ten components

A Dafny 4.11 project that models the algorithms, protocols and state machines of ten components of the
agent platform and proves what they keep, compute and promise. `dafny verify dfyconfig.toml` checks all of it.

| file | component |
|---|---|
| `Graphs.dfy`, `TaskGraph.dfy` | walks, cycles and unfoldings; ancestor search, `add_child` and the cycle check of the planner |
| `Planner.dfy`, `PlanSearch.dfy`, `PlanGuarantees.dfy` | option evaluation; decomposition and the heap-driven search; what it finds, and `generate_plan` |
| `Auction.dfy` | the combinatorial auction, its optimum, its payments and the documented VCG rule |
| `CapabilityRegistry.dfy` | `register` and `execute` tasks over two locks and the pools' semaphores, interleaved |
| `ProofOfWork.dfy` | the threaded nonce search with its shared result cell, interleaved |
| `EigenTrust.dfy` | the reputation engine over the reals |
| `Edifact.dfy` | element and segment-body parsing, and printing by the release rule of section 5.1 of ISO 9735:1988 |
| `MemoryStore.dfy` | versioned rows with a cache in front |
| `AuditPipeline.dfy` | loggers, bounded queue, workers and shutdown, interleaved |
| `StreamValidator.dfy` | the keyed stream validator |
| `E91.dfy` | correlation test and key sifting of the E91 channel |
| `Optional.dfy` | the shared option type |

The main theorems:

- planner: `ValidateDag`, `EvaluateOutcome`, `AllPushedDescends`, `Search`, `SearchIff`, `FoundIsWorkable`, `GeneratePlan`
- auction: `BestIsOptimal`, `PaymentBounds`, `TruthIsDominant`
- registry: `RunsAreSafe`, `RegisterReplies`, `ExecuteReplies`, `SuccessLasts`, `DeadlockIff`, `RunsFinish`
- proof of work: `RangesPartition`, `ReachedInv`, `ReturnExactIff`, `RunsAreBounded`
- reputation: `RawResponds`, `RunsStaySound`, `RunsKeepFloor`, `RoundsStop`
- EDIFACT: `ExitsIff`, `RoundTripIff`
- memory store: `RunGood`, `AnsweredIff`, `ReadsBackIff`
- audit: `EventsConserved`, `AcceptsIff`, `CanDrain`, `ShutdownLosesNothingIff`, `AlwaysDrainsIff`
- stream validator: `EmitsExactly`, `AgentsIndependent`, `DriftBounded`
- E91: `VerifyBellInequality`, `UnpackPack`, `GenerateKey`

How the source is rendered:

- Objects with identity (tasks, bidders, agents, nodes, capabilities) are numbers; dictionaries are maps, lists are
  sequences. Objects whose methods change fields are classes; loops are methods with invariants, proved against
  specification functions.
- Concurrent components are state machines over values, one step per access to shared state, so that a theorem can
  speak of every reachable state of every interleaving. `ReachedIn` and `Runs` count the steps of a run.
- Floating-point numbers are reals. Clocks, random draws, signatures, hashes, compression, sealing, database answers
  and cache evictions are parameters, and the theorems hold for all of them.
- Where the code and its documentation disagree, the code is modelled. The findings:
  - `add_child` looks for cycles along preconditions only, so cycles of children get in (`AddChildGuardMissesCycles`).
  - A demand above the pool for a resource the pool does not name ends `_evaluate_option` in a key error instead of a
    conflict (`EvaluateOutcome`, `KeyErrorOption`), and the search with it (`SearchIff`).
  - With nonnegative costs nothing below the root's options ever matters to the "AO*" search (`SearchFindsCheapest`).
  - The auction subtracts the exclusion welfare the wrong way round: winners pay at least their bid
    (`PaymentBounds`, `SoleBidPaysTwice`, `EngineWinnerLoses`); the documented rule is truthful (`TruthIsDominant`).
  - A capability registered with less than one core can lock up the whole registry (`DeadlockIff`), and at most
    one capability body runs at a time whatever the pools allow (`RunsAreSafe`).
  - A proof-of-work solution at nonce 0 is lost and can erase all others, with any number of threads
    (`ReturnExactIff`, `ZeroErases`).
  - The EDIFACT parser cannot read a released separator, terminator or release character back (`RoundTripIff`), and a
    segment without a terminator never ends (`ExitsIff`).
  - The memory cache is filled by record id but asked by agent id, and then answers with another agent's bytes
    (`ReadsBackIff`, `WrongBytesRead`).
  - Events queued when the auditor begins to shut down can be lost, and so can events
    accepted meanwhile (`ShutdownLosesNothingIff`, `AlwaysDrainsIff`, `EventCanBeLost`).
  - The Bell test of the E91 channel always fails and its keys are all zero.

## Model

| member | source | states |
|---|---|---|
| TaskGraph.GetAncestors | orchestration/symbolic/planner.py:61-71 | returns exactly the nodes reachable through one or more precondition links, on any graph, cyclic or not |
| TaskGraph.TaskNetwork.AddChild | orchestration/symbolic/planner.py:55-59 | refuses exactly the proper ancestors, otherwise appends to that node's children and changes no others; an acyclic child graph then stays acyclic if and only if the new child does not reach the node |
| Graphs.AddEdgeAcyclic | orchestration/symbolic/planner.py:55-59 | adding an edge to any acyclic graph keeps it acyclic exactly when its head does not reach its tail |
| TaskGraph.AddChildGuardMissesCycles | orchestration/symbolic/planner.py:55-59 | for any two nodes the guard passes an edge that closes a cycle of children |
| TaskGraph.ValidateDag | orchestration/symbolic/planner.py:73-85 | terminates on every finite graph, reports a node exactly when a cycle is reachable from the start, and the node reported lies on one; otherwise every reachable node has a finite unfolding |
| Planner.EvaluateOption | orchestration/symbolic/planner.py:176-203 | the nested loops with early exit give the outcome of the running account over the pending nodes' demands: plan, conflict, or key error for a resource missing from the pool; a plan lists the option's nodes and carries the largest risk of a pending one, at least 0 |
| Planner.EvaluateOutcome | orchestration/symbolic/planner.py:176-203 | for any amounts: a plan with exact totals exactly if no running total takes its resource above the pool; otherwise, at the first that does, a conflict if the pool names the resource and a key error exactly if it does not |
| Planner.DemandsJoin | orchestration/symbolic/planner.py:184-189 | the demands looked at are the dictionaries of the pending nodes, one after the other in order, and no others |
| Planner.PlanFigures | orchestration/symbolic/planner.py:176-203 | every figure of a plan from the tasks alone: its sequence is the option, its risk the largest of a pending task and at least 0, and each further node adds its cost and its demands exactly if it is pending, starting from nothing |
| Planner.KeyErrorOption | orchestration/symbolic/planner.py:190-193 | any pending task that asks for some of one resource missing from the pool ends in the key error |
| Planner.EvaluateMeans | orchestration/symbolic/planner.py:176-203 | with nonnegative amounts a plan results exactly when no named resource's full total over pending nodes exceeds the pool |
| Planner.EvaluatePermutes | orchestration/symbolic/planner.py:176-203 | reordering the nodes changes neither whether the option fits nor usage, cost or risk |
| PlanSearch.Decompose | orchestration/symbolic/planner.py:91-119 | the loops of both decompose methods give the options of the node |
| PlanSearch.OptionsOffer | orchestration/symbolic/planner.py:91-119 | every fitting child is offered as often as it is a child and no other; one joint option for AND, single-node options for OR, none empty |
| PlanSearch.OfferedInOrder | orchestration/symbolic/planner.py:91-119 | the children offered are exactly the fitting ones in their own order |
| PlanSearch.PushedByDescends | orchestration/symbolic/planner.py:157-170 | the options of one node push, on top of whatever is waiting, costs that strictly decrease from below the best plan before; the best plan after costs as much as the last of them, and is unchanged if there is none |
| PlanSearch.AllPushedDescends | orchestration/symbolic/planner.py:144-170 | for arbitrary costs all costs ever pushed after the root strictly decrease over the whole search, and from any point of the search on they lie below the best plan found so far |
| PlanSearch.HeapHasNoTies | orchestration/symbolic/planner.py:146-167 | a heap that holds a strictly descending stack has no two equal costs, so task nodes are never compared |
| PlanSearch.ExpandNode | orchestration/symbolic/planner.py:157-170 | the option loop pushes exactly the entries of the stack specification in its order and updates the best plan as it does, also up to a key error, keeping heap and stack the same multiset and ordered |
| PlanSearch.Search | orchestration/symbolic/planner.py:144-174 | for arbitrary costs on any acyclic graph the heap search terminates, returns what the depth-first search over a stack returns and pushes the same entries in the same order, each cheaper than all pushed before |
| PlanGuarantees.ExpandRoot | orchestration/symbolic/planner.py:155-170 | the root's options end in a key error exactly if one of them does; otherwise they leave the first cheapest admissible option as the best plan and, waiting, exactly the options strictly cheaper than every admissible one before them |
| PlanGuarantees.BestSurvivesIff | orchestration/symbolic/planner.py:149-170 | for arbitrary costs and resources the best plan survives the rest of the search exactly when expanding each waiting node ends in no key error and gets nothing below it |
| PlanGuarantees.SearchIff | orchestration/symbolic/planner.py:144-174 | for arbitrary costs and resources the result is the first cheapest admissible option of the root (no plan if none) exactly when no option of the root ends in a key error and, for each admissible one cheaper than all admissible before it, expanding its last node neither does nor undercuts the cheapest |
| PlanGuarantees.SearchFindsCheapest | orchestration/symbolic/planner.py:144-174 | with nonnegative costs and all resources named in the pool that condition always holds: no deeper expansion changes the result |
| PlanGuarantees.NegativeCostDescends | orchestration/symbolic/planner.py:163-167 | an admissible option of negative cost below the chosen one replaces its plan while the total keeps the replaced cost |
| PlanGuarantees.FoundIsWorkable | orchestration/symbolic/planner.py:144-203 | for arbitrary costs and resources a plan that is found is that of an admissible option of a node the search gets to, its cost is the sum of the option costs on the way there and its own, it holds tasks, none of the pending ones above the risk threshold, and it uses each resource to the exact total of their demands, within the pool |
| PlanGuarantees.GeneratePlan | orchestration/symbolic/planner.py:135-142 | reports a circular dependency exactly when a cycle is reachable from the root, otherwise returns the search's result, with the guarantees above, so that every plan returned can be carried out |
| Auction.ValidateBids | platform/market_mechanism/auction_engine/combinatorial.py:47-55 | accepts exactly the lists without two bids of the same package, bidder and nonce |
| Auction.WelfareGains | platform/market_mechanism/auction_engine/combinatorial.py:69-74 | the objective is 0 for no bid and gains the value of each bid chosen in addition |
| Auction.BestIsOptimal | platform/market_mechanism/auction_engine/combinatorial.py:57-74 | branching on each bid gives a choice that meets every item row and has the greatest value of all that do, with given bidders held at 0 and given items taken |
| Auction.Solve | platform/market_mechanism/auction_engine/combinatorial.py:78-84 | an exact optimum of the program exists for any bids, items and excluded bidders |
| Auction.PaymentBounds | platform/market_mechanism/auction_engine/combinatorial.py:96-102 | the clamp never fires; a winner pays between its bid and its bid plus all it won (at most twice a sole bid), exceeds the VCG payment by exactly twice the welfare it adds, and equals it, or its bid, exactly if some optimal choice takes no bid of that bidder |
| Auction.SoleBidPaysTwice | platform/market_mechanism/auction_engine/combinatorial.py:100-101 | a bidder alone in the auction pays twice its bid where the VCG rule charges nothing |
| Auction.ComputePayments | platform/market_mechanism/auction_engine/combinatorial.py:76-109 | the loop leaves a payment for exactly the winning bidders, that of each one's last chosen bid, with these bounds, and records each chosen package for its last winner |
| Auction.OthersUnmoved | platform/market_mechanism/auction_engine/combinatorial.py:111-118 | the optimum without a bidder does not depend on that bidder's report |
| Auction.TruthIsDominant | platform/market_mechanism/auction_engine/combinatorial.py:76-77 | under the VCG rule no report of value or package by a single-package bidder gains over the truth, whichever optima the solver picks |
| Auction.EngineWinnerLoses | platform/market_mechanism/auction_engine/combinatorial.py:100-101 | under the engine's formula a truthful winner loses exactly the welfare it adds |
| CapabilityRegistry.SelectVersion | agent/core/capability.rs:115-118 | the reverse scan finds the greatest matching version, or none exactly when none matches |
| CapabilityRegistry.ReachedInv | agent/core/capability.rs:77-172 | every state of every interleaving of any number of tasks keeps the invariant: each lock belongs to exactly the task inside its section, permits held and free add up to each capacity, every id with versions has a pool, the version an execution has selected is the latest registered one that matches, tables and pools stem from requests, and no task has failed for a missing pool |
| CapabilityRegistry.RunsAreSafe | agent/core/capability.rs:103-172 | permits held and free add up to each capacity, ids with versions have pools, the missing-pool error never occurs, at most one body runs, it holds both locks and runs the latest compatible version registered |
| CapabilityRegistry.RegisterReplies | agent/core/capability.rs:77-99 | a registration is refused exactly if its version was in the table when it looked, succeeds exactly by the step that adds it, and is cancelled exactly if dropped; nothing else is added and nothing removed |
| CapabilityRegistry.ExecuteReplies | agent/core/capability.rs:103-140 | an execution ends as not found exactly if the id has no entry, as incompatible exactly if no listed version matches, and otherwise as its body ends, unless it is dropped; the table stays as it is |
| CapabilityRegistry.SuccessLasts | agent/core/capability.rs:77-99 | in every run a registration that succeeded has its version in the table from then on, and no two succeed with the same version |
| CapabilityRegistry.DropReleases | agent/core/capability.rs:103-140 | any unfinished task can be dropped, which leaves the table alone, frees its locks and gives back its permit |
| CapabilityRegistry.CapacityTruncates | agent/core/capability.rs:152-154 | the number of permits is the number of cores rounded down, and 0 below one core |
| CapabilityRegistry.StuckIff | agent/core/capability.rs:110-128 | a reachable state is stuck exactly when a task waits for a permit of a pool of capacity 0 |
| CapabilityRegistry.DeadlockIff | agent/core/capability.rs:77-172 | a stuck state is reachable exactly when some registration of less than one core shares its id with an execution that matches some registered version of that id |
| CapabilityRegistry.RunsAreBounded | agent/core/capability.rs:77-140 | no run takes more than six steps a task |
| CapabilityRegistry.RunsFinish | agent/core/capability.rs:77-140 | with at least one core in every registration a run that cannot go on has finished every task |
| ProofOfWork.MeetsTarget | platform/market_mechanism/reputation_system/proof_of_work.c:77-84 | the byte loop accepts exactly the digests with every target bit set |
| ProofOfWork.MeetsMeans | platform/market_mechanism/reputation_system/proof_of_work.c:79-84 | the test passes exactly if every selection of bits set in the target is set in the digest |
| ProofOfWork.RangesPartition | platform/market_mechanism/reputation_system/proof_of_work.c:99-106 | each nonce below the covered count is in exactly one range, any other in none, and at most as many nonces as threads are left out |
| ProofOfWork.ReachedInv | platform/market_mechanism/reputation_system/proof_of_work.c:62-118 | in every interleaving each worker has tried in vain all of its range before its nonce, stores only nonces that verify, and stops early only if something was found |
| ProofOfWork.ResultsVerify | platform/market_mechanism/reputation_system/proof_of_work.c:86-90 | a nonzero shared result always passes verification and is covered, and no nonce counter wraps |
| ProofOfWork.ReturnMeans | platform/market_mechanism/reputation_system/proof_of_work.c:95-118 | a return of 1 means a solution exists; on a return of 0 no covered nonce verifies exactly if nonce 0 does not |
| ProofOfWork.ZeroIsLost | platform/market_mechanism/reputation_system/proof_of_work.c:86-90 | with one thread and a good nonce 0 every run returns 0 |
| ProofOfWork.ZeroErases | platform/market_mechanism/reputation_system/proof_of_work.c:62-118 | for every thread count, if nonce 0 verifies a run is reachable that returns 0, whatever the other threads find |
| ProofOfWork.ReturnExactIff | platform/market_mechanism/reputation_system/proof_of_work.c:95-118 | for every thread count the return value tells in every run whether a covered nonce verifies if and only if nonce 0 does not verify |
| ProofOfWork.StopsSoon | platform/market_mechanism/reputation_system/proof_of_work.c:68-70 | once a result is stored and nonce 0 does not verify, the result stays and every interleaving ends within four steps a thread and two more |
| ProofOfWork.SomeoneSteps | platform/market_mechanism/reputation_system/proof_of_work.c:103-117 | until the call has returned some thread can step |
| ProofOfWork.RunsAreBounded | platform/market_mechanism/reputation_system/proof_of_work.c:62-118 | every interleaving is finite, bounded by the work there is at the start |
| EigenTrust.NormalizeSums | platform/market_mechanism/reputation_system/eigen_trust.rs:164-175 | normalisation of any nonnegative scores keeps the keys and sums to exactly 1, and a score is positive exactly if it was or the near-zero branch was taken |
| EigenTrust.ComputeSums | platform/market_mechanism/reputation_system/eigen_trust.rs:99-115 | a round keeps the peers and sums to 1, and a score is positive exactly if alpha is below 1, the weighted sum is positive or the near-zero branch was taken |
| EigenTrust.RawOfSilent | platform/market_mechanism/reputation_system/eigen_trust.rs:101-110 | before normalisation a peer that rates nobody has (1 - alpha) times its own trust |
| EigenTrust.RawResponds | platform/market_mechanism/reputation_system/eigen_trust.rs:101-110 | changing one local score from y to x moves the peer's score before normalisation by alpha (x - y) times the rated peer's previous trust, by 0 if that peer has none, and moves no other peer's |
| EigenTrust.ComputeKeepsRatios | platform/market_mechanism/reputation_system/eigen_trust.rs:99-175 | a round divides these scores by their sum, so that their ratios stay, or gives everybody the same share if the sum is below the machine epsilon |
| EigenTrust.ScoreFloor | platform/market_mechanism/reputation_system/eigen_trust.rs:99-115 | outside the near-zero branch a score is at least (1 - alpha) g divided by alpha n S + (1 - alpha) times the sum of g, with S the trust in circulation |
| EigenTrust.RoundsSound | platform/market_mechanism/reputation_system/eigen_trust.rs:76-87 | however many rounds are taken the result is positive and sums to 1, and it respects the floor, with S equal to 1 from the second round on |
| EigenTrust.RoundsStop | platform/market_mechanism/reputation_system/eigen_trust.rs:76-87 | the result is the vector after k rounds, where every earlier round moved some score by the threshold or more, and round k moved none by that much unless it is the last allowed |
| EigenTrust.NeverNearZero | platform/market_mechanism/reputation_system/eigen_trust.rs:164-170 | with total trust of at least 1 and 1 - alpha at least the machine epsilon the near-zero branch is never taken |
| EigenTrust.UpdateFloor | platform/market_mechanism/reputation_system/eigen_trust.rs:69-97 | an update of balanced trust with any alpha in [0, 1) leaves every peer at least (1 - alpha) g divided by alpha n + 1 - alpha, also when the near-zero branch is taken |
| EigenTrust.ReputationEngine.UpdateTrust | platform/market_mechanism/reputation_system/eigen_trust.rs:69-97 | the loop with its early exit writes back the result of up to 100 rounds, stopping after exactly the first that moves no score by the threshold, leaves trust sound and summing to 1, and keeps every peer's floor |
| EigenTrust.ReputationEngine.AddInteraction | platform/market_mechanism/reputation_system/eigen_trust.rs:137-161 | rejects unknown sources and bad signatures without change, otherwise moves one local score, to the point of [0, 1] nearest to the old score plus the interaction, and nothing else, keeping trust sound and global trust as it was |
| EigenTrust.RunsStaySound | platform/market_mechanism/reputation_system/eigen_trust.rs:69-161 | over every sequence of interactions and updates with alpha in [0, 1) local trust stays in [0, 1], global trust positive, the peers the same, and after an update global trust sums to exactly 1 |
| EigenTrust.RunsKeepFloor | platform/market_mechanism/reputation_system/eigen_trust.rs:69-161 | in every such run, for every alpha in [0, 1), an update that is not the first leaves every peer at least its floor |
| Edifact.EdiParser.ParseElement | enterprise/legacy_gateway/protocol_reviver/edi_parser.rs:207-239 | the character loop reads one element as the scan specifies and counts every character it takes |
| Edifact.EdiParser.ParseSegmentBody | enterprise/legacy_gateway/protocol_reviver/edi_parser.rs:191-204 | given a terminator, consumes exactly up to and including the first one and returns the parsed elements |
| Edifact.ExitsIff | enterprise/legacy_gateway/protocol_reviver/edi_parser.rs:195-200 | the loop ends after some number of turns exactly when a terminator remains in the input |
| Edifact.ParseIsClean | enterprise/legacy_gateway/protocol_reviver/edi_parser.rs:213-233 | no component ever read holds a data separator, a terminator or the release character |
| Edifact.RoundTripIff | enterprise/legacy_gateway/protocol_reviver/edi_parser.rs:191-239 | a body printed by the release rule reads back, less one trailing empty element, if and only if no text holds a data separator, terminator or release character |
| Edifact.ReleasedReads | enterprise/legacy_gateway/protocol_reviver/edi_parser.rs:213-233 | after a release character an ordinary character and a component separator are read as themselves, a release character undoes it, and a data separator or terminator ends the element all the same |
| Edifact.ReleasedSeparatorSplits | enterprise/legacy_gateway/protocol_reviver/edi_parser.rs:220-226 | an element with a released data separator comes back as two elements |
| MemoryStore.VersionsDistinct | core/cognition_engine/memory_architect/memgpt_adapter.go:150-166 | no two rows share agent and version |
| MemoryStore.VersionPresent | core/cognition_engine/memory_architect/memgpt_adapter.go:150-166 | every version from 1 to the number of the agent's rows is present |
| MemoryStore.RunGood | core/cognition_engine/memory_architect/memgpt_adapter.go:112-223 | over every sequence of stores, retrievals and evictions versions are 1, 2, 3 and so on in commit order for each agent, committed rows stay as they are and decode to what was stored |
| MemoryStore.ReadsBackIff | core/cognition_engine/memory_architect/memgpt_adapter.go:180-223 | a committed version reads back after every run that stores nothing under its agent's id if and only if no record with that id holds other bytes |
| MemoryStore.RetrieveMeans | core/cognition_engine/memory_architect/memgpt_adapter.go:180-223 | a retrieval gives exactly the bytes that the answering record yields, the one cached under the agent's id or else the agent's row of that version; it fails without such a record and if the data are too short, do not open or do not decompress |
| MemoryStore.AnsweredIff | core/cognition_engine/memory_architect/memgpt_adapter.go:187-222 | for an agent that is no key of the cache exactly the versions from 1 to the number of its rows are answered, with the bytes stored under them |
| MemoryStore.WrongBytesRead | core/cognition_engine/memory_architect/memgpt_adapter.go:187-188 | from the empty store two stores suffice for an agent's first version to read back as another agent's bytes |
| MemoryStore.MemoryAdapter.StoreMemory | core/cognition_engine/memory_architect/memgpt_adapter.go:112-177 | succeeds exactly if marshalling, nonce, transaction and primary key allow, then appends one row and caches it; any failure changes nothing |
| MemoryStore.MemoryAdapter.RetrieveMemory | core/cognition_engine/memory_architect/memgpt_adapter.go:180-223 | answers from the cache under the agent id, else from the rows, caching what it found; fails without change if the query fails, for a version never stored, and on every failing step of decoding |
| AuditPipeline.EventsConserved | security/audit/auditor.go:87-170 | in every run accepted events are, in order, those taken and then those queued, and each is persisted, failed, in flight or queued exactly as often as accepted; the queue keeps to its bound and after shutdown none is in flight |
| AuditPipeline.AcceptsIff | security/audit/auditor.go:87-96 | in every run an event can be queued exactly if fewer than the bound are accepted and untaken, and handed over exactly if none is and a worker waits |
| AuditPipeline.QueueHolds | security/audit/auditor.go:68-96 | any list of events no longer than the bound can be exactly what is queued and accepted, for any number of workers |
| AuditPipeline.OutcomesCounted | security/audit/auditor.go:146-154 | every successful attempt persists one event and every failed attempt loses one, and nothing else does |
| AuditPipeline.CanDrain | security/audit/auditor.go:143-159 | while one worker is left every event accepted so far can still be persisted or has failed already |
| AuditPipeline.OpenCanDrain | security/audit/auditor.go:136-159 | that is so in every state before the shutdown, with any worker at all |
| AuditPipeline.NoneTwice | security/audit/auditor.go:143-159 | an event accepted once is persisted or failed at most once |
| AuditPipeline.StoppedForGood | security/audit/auditor.go:163-170 | once shutdown has returned nothing more is taken, persisted or failed in any further run, and the queue only grows |
| AuditPipeline.ShutdownCompletes | security/audit/auditor.go:143-170 | from every state in which shutdown waits a run without new events reaches its return, leaving the queue as it is |
| AuditPipeline.ShutdownLosesNothingIff | security/audit/auditor.go:143-170 | every way a shutdown can end, with nothing queued meanwhile, has dealt with every accepted event if and only if the queue is empty when it begins to wait |
| AuditPipeline.AlwaysDrainsIff | security/audit/auditor.go:87-170 | with loggers at work during the shutdown, every way it can end has dealt with every accepted event if and only if the queue has capacity 0 |
| AuditPipeline.EventCanBeLost | security/audit/auditor.go:87-170 | for any number of workers and room for one event a run ends in shutdown with an accepted event never handled |
| StreamValidator.StatefulValidator.ProcessElement | platform/data_plane/stream_processor/flink_job.java:184-202 | emits and remembers exactly the events of value at least 0, less than a day old, of nonempty kind and within a million of the agent's last value |
| StreamValidator.Process | platform/data_plane/stream_processor/flink_job.java:172-202 | the validator object fed a stream emits what the stream function says, in order exactly the events that deserve it |
| StreamValidator.EmitsExactly | platform/data_plane/stream_processor/flink_job.java:184-202 | from the events' fields alone: the outputs are, in stream order, agent, kind and value of exactly the events of value at least 0, less than a day old and of nonempty kind that are their agent's first such or lie within a million of its previous output |
| StreamValidator.AgentsIndependent | platform/data_plane/stream_processor/flink_job.java:172-196 | in every interleaving one agent's output is that of its own events alone |
| StreamValidator.DriftBounded | platform/data_plane/stream_processor/flink_job.java:189-194 | in every interleaving an agent's k-th later value is within k jumps of its first, and neighbouring values are less than one jump apart |
| E91.E91Channel.GenerateEntangledPairs | core/quantum_layer/qkd_protocols/e91_quantum.rs:35-51 | resets all pairs to unmeasured and keeps recorded bases, so that results are complete only for a channel that had none recorded |
| E91.E91Channel.MeasurePair | core/quantum_layer/qkd_protocols/e91_quantum.rs:53-104 | fails exactly on a missing pair; otherwise records the bases and, for three of the nine pairs of bases, opposite results by the draw, for the others none, keeping results on record |
| E91.E91Channel.VerifyBellInequality | core/quantum_layer/qkd_protocols/e91_quantum.rs:106-129 | for any threshold of 1 or more the test never succeeds; the average lies in [-1, 0], is -1 if pairs were generated once, and is undefined exactly without counted pairs |
| E91.SiftedInOrder | core/quantum_layer/qkd_protocols/e91_quantum.rs:136-141 | the sifted bits are the low bits of Alice's results, in order, of exactly the pairs both sides measured rectilinearly |
| E91.UnpackPack | core/quantum_layer/qkd_protocols/e91_quantum.rs:140-149 | unpacking the packed bytes, most significant bit first, gives back all but fewer than eight of the bits |
| E91.E91Channel.GenerateKey | core/quantum_layer/qkd_protocols/e91_quantum.rs:131-153 | fails exactly if some pair has no recorded bases; otherwise the key is the packed sifted bits, all of them zero |

## Left out

- `validate_resources` is called by both decompose methods but defined nowhere; it is the predicate `fits`.
- The binary heap inside `heapq` is not modelled; a heap is a sequence from which the least entry is taken.
- `visualize`, logging, tracing, metrics and the example programs: output only.
- The solver of the auction is foreign code; it is replaced by an exact optimum, and the payment theorems hold for any optimal solution. Looking variables up by the name of the bidder, which mixes up several bids of one bidder, and the dual values are not modelled.
- Hash collisions between bid keys are not modelled; keys are compared themselves.
- In the capability registry, bodies that call the registry again or keep their permit after returning are not modelled, nor the limit on semaphore permits; registry, proof of work and audit pipeline are modelled on values as state machines, not as objects updated in place.
- `adjust_difficulty`, `generate_challenge` and the `attempts` counter, which only feeds the difficulty, are not modelled; shared memory is sequentially consistent and thread creation succeeds.
- Rounding, infinities and not-a-number values of floating-point trust and prices are not modelled, nor the locks and the database of the reputation engine.
- Service string advice, tags, UNB, UNH, UNT and UNZ segments and version checks of the EDIFACT parser are not modelled; delimiters are parameters, and the theorems ask that the terminator, and for printing all four delimiters, are distinct.
- Edifact.EdiParser.ParseSegmentBody: asks for a terminator in the input, because without one the loop does not end; `ExitsIff` and `NeverExits` cover that case.
- Expiry times and metadata of memory rows are not modelled; transactions commit one after the other, as serializable isolation promises.
- Encryption, signatures of audit records and the compliance policies are not modelled; persisting an event succeeds or fails arbitrarily.
- Photon angles and the probability of a draw are not modelled; every draw is arbitrary.
- The other components of the repository are left out: the Kubernetes, cloud, mainframe, SAP, Oracle and OPC UA adapters, the Kyber handshake, hybrid encryption, key rotation, enclave and hardware-module code, and the BB84 emulator, which wrap or imitate foreign libraries; the neural network, federated learning and language-model code; the Clarity auction contract; policies, schemas and deployment files; and the agent life cycle, publish-subscribe and client circuit-breaker counters.
