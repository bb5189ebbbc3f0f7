# Verified kernels of the agent security platform

This project states and proves what the algorithmic kernels of the platform compute. Each kernel is
modelled by functions on values, the classes and loops of the source are methods proved against
those functions, and the promises of the design are lemmas about the functions over all inputs, all
runs and all interleavings. `dafny verify dfyconfig.toml` checks the whole project within Dafny's
default time limit; with `--verification-time-limit 0 --resource-limit 2000000
--warn-contradictory-assumptions` it does so independently of the speed of the machine.

| kernel | modules | main results |
|---|---|---|
| lattice key encapsulation and hybrid exchange | `NegacyclicRing`, `Polynomials`, `MessageBits`, `ModuleVectors`, `KyberKem`, `KyberParameters`, `HybridExchange` | the coded product is a commutative ring product; decapsulation recovers the message if and only if it survives the noise, for every matrix; then, and otherwise only by a hash collision, both parties hold the same key; a key binds the whole transcript; which parameter sets always succeed |
| task graph and orchestration loop | `TaskGraph`, `TopologicalSort`, `Scheduling`, `Orchestrator` | the sort succeeds exactly on acyclic graphs with known dependencies; a pass completes exactly the ready tasks; the run succeeds exactly when no task is blocked for 1000 passes |
| message bus | `BusModel`, `MessageBus` | in every interleaving the hash chain, the sequence numbers and the inboxes agree with the log; the last digest determines the whole log, up to a collision, and every field unless an id holds a bar |
| drift metric and monitor | `DriftMetric`, `DriftMonitor` | the change rate is a distance (for weights of either sign), so cumulative drift covers the distance travelled |
| memory paging and relation graph | `ContextModel`, `ContextBudget`, `ContextEffects`, `ContextManager`, `RelationGraph` | every run keeps the two levels disjoint, capped and balanced; eviction takes a shortest prefix of its order; exactly when the budget is exceeded; what a search leaves of every entry; the traversal visits exactly the nodes within the depth, at their distance |
| configuration updates | `ConfigTree`, `ConfigExecutor`, `ConfigRuns` | apply then verify succeeds, other paths are untouched, incomparable updates commute; in every run of executions, confirmations and rollbacks, what a rollback puts back, when it is as if the executions had never been made, and by how much the counters and the history differ |
| rule circuit breaker | `RuleBreaker`, `RulePersistence` | no active version is ever open, each version breaks at most once, the trigger counter counts the broken versions, and exactly when a version is promoted |
| log tailer | `LogTailer`, `LogLateStart` | across appends, polls and restarts the parser gets each complete non-blank line once, in order; exactly when a start at the end loses or cuts none |
| keyword index | `KeywordIndex` | the incremental index equals the one built from scratch |
| policy decision | `PolicyDecision` | the decision is the strictest applicable action, and exactly when the check raises instead; retrieval only ever makes it stricter and leaves the table as it was |
| genetic loop | `Evolution` (sorting: `Sequences`) | the best fitness never falls; the size after each generation, and exactly when it stays within its bounds |

Floating-point numbers are reals. Clocks, random choices, hash functions, file contents, regular
expressions and handlers are inputs. Hash tables are walked in an arbitrary order. A critical section
is one atomic step. The conventions of the original languages are written out where they matter:
wrap-around of the 64-bit sequence counter, Python slices with negative or zero bounds, Python truth
values of snapshots, `key in value` on strings and lists, exceptions as outcomes.

Where the code does something other than its documentation suggests, the code is followed:

* The default key-encapsulation parameters are outside the range in which decapsulation always
  succeeds (`KyberKem.DefaultParametersCanFail`); the exact range is
  `KyberParameters.ParametersRecoverExactly`, and the exact condition of one run
  `KyberKem.DecapsRecoversExactly`.
* `rollback_last(0)` rolls back the whole history, because the slice `[-0:]` is the whole list
  (`ConfigExecutor.RollbackOfNone`; an input is `ConfigExecutor.RollbackOfNoneCanUndo`), and an
  execution whose snapshot is missing or empty is never undone (`ConfigExecutor.CreationIsNotRolledBack`;
  the exact condition is `ConfigExecutor.RollbackRestoresExactly`).
* A rollback corrects the history but no counter: the counters differ from the history by exactly the
  executions undone (`ConfigRuns.EveryRunBalances`).
* In SIMULATE mode the update is made on the snapshot that is kept for a rollback, so a rollback writes the
  simulated configuration (`ConfigExecutor.SimulationCanWrite`; the exact condition is
  `ConfigExecutor.SimulatedRollbackExactly`).
* The fields of an audit record are joined by a bar that the ids may hold, so different messages can have one
  record (`BusModel.BarsCanConfuse`; without bars in the ids, `BusModel.BodyDeterminesFields`).
* A log consumer that is meant to start at the end of a file begins where the first poll finds text: it
  skips the first text of an empty file, and starts within a line that is unfinished
  (`LogLateStart.HalfALine`; the exact conditions are `LogLateStart.LateStartExactly` and
  `LogLateStart.SafeStartExactly`).
* Eviction stops when the next entry to evict has the empty id, and so can end over the token budget
  (`ContextBudget.EmptyIdCanOverrun`; the exact condition is `ContextBudget.OverBudgetExactly`).
* Replacing an entry of the main context does not enforce the budget, so `SemanticMemoryStore.update`
  can leave it exceeded (`ContextBudget.ReplacementCanOverrun`; the exact condition is
  `ContextBudget.ReplacementOverBudgetExactly`).
* A retrieval-enhanced check puts the tool name into a pattern as it is, and raises where the plain check
  decides if that pattern is malformed and no denial comes first (`PolicyDecision.EnhancedCanRaise`; the
  exact condition is `PolicyDecision.EnhancedRaisesExactly`).
* A selector may return fewer parents than asked for, as roulette selection does without any fitness; the
  population then falls below its size (`Evolution.RouletteCanFail`; the exact condition is
  `Evolution.SizeGuaranteedExactly`).

## Model

| member | source | states |
|---|---|---|
| NegacyclicRing.MulCommutes | evolution/post_quantum_crypto.py:92-114 | multiplication in Z[X]/(X^n + 1) is commutative, for every n |
| NegacyclicRing.MulAssociates | evolution/post_quantum_crypto.py:92-114 | and associative |
| NegacyclicRing.MulDistributes | evolution/post_quantum_crypto.py:80-114 | and distributes over addition and subtraction, on both sides |
| NegacyclicRing.MulIsConvolution | evolution/post_quantum_crypto.py:100-112 | each coefficient of the ring product is the textbook negacyclic convolution sum |
| NegacyclicRing.MulBound | evolution/post_quantum_crypto.py:92-114 | a product of polynomials bounded by a and b is bounded by n*a*b |
| Polynomials.Polynomial | evolution/post_quantum_crypto.py:72-78 | padding, cutting and reducing gives n coefficients in [0, q), the residues of the input |
| Polynomials.Add | evolution/post_quantum_crypto.py:80-84 | the residues of the exact sum |
| Polynomials.Sub | evolution/post_quantum_crypto.py:86-90 | the residues of the exact difference, never negative |
| Polynomials.FoldUpperHalf | evolution/post_quantum_crypto.py:109-112 | plain product minus its upper half is the negacyclic convolution (X^n = -1) |
| Polynomials.Multiply | evolution/post_quantum_crypto.py:92-114 | the coded product is the ring product modulo q |
| Polynomials.TimesHomomorphic | evolution/post_quantum_crypto.py:92-114 | reducing the factors first does not change the product modulo q |
| Polynomials.TimesCommutes | evolution/post_quantum_crypto.py:92-114 | the coded product is commutative for all n and q >= 1 |
| Polynomials.TimesAssociates | evolution/post_quantum_crypto.py:92-114 | and associative |
| Polynomials.TimesDistributes | evolution/post_quantum_crypto.py:80-114 | and distributes over the coded sum and difference |
| Polynomials.BytesRoundTrip | evolution/post_quantum_crypto.py:138-149 | decoding the two-byte encoding gives the polynomial back, for q up to 65536 |
| Polynomials.BytesOfCoefficient | evolution/post_quantum_crypto.py:138-140 | coefficient i is written at 2i and 2i + 1, the low byte first |
| Polynomials.CoefficientOfBytes | evolution/post_quantum_crypto.py:142-146 | and read from there, modulo q, for any bytes |
| MessageBits.SetBitEffect | evolution/post_quantum_crypto.py:337 | setting bit t changes bit t and no other |
| MessageBits.BitOfExactly | evolution/post_quantum_crypto.py:298 | bit t is the parity after a shift by t places |
| MessageBits.DecodeMessage | evolution/post_quantum_crypto.py:327-338 | the decoding loop sets exactly the bits whose coefficient is nearer to q/2 than to 0 |
| MessageBits.DecodeExact | evolution/post_quantum_crypto.py:331-337 | an encoded bit plus noise decodes to that bit if and only if the centred noise lies in an explicit interval |
| MessageBits.SmallNoiseSurvives | evolution/post_quantum_crypto.py:327-338 | noise below a quarter of q lies in that interval |
| ModuleVectors.Adjoint | evolution/post_quantum_crypto.py:282-290 | (A s)^T r = s^T (A^T r) for every k-by-k matrix |
| ModuleVectors.Cancellation | evolution/post_quantum_crypto.py:282-325 | v - s^T u equals the encoded message plus e^T r + e2 - s^T e1, whatever the matrix |
| ModuleVectors.NoiseBound | evolution/post_quantum_crypto.py:249-280 | that noise is at most n*k*eta1*(eta1+eta2)+eta2 for bounded secrets and errors |
| KyberKem.CbdBound | evolution/post_quantum_crypto.py:117-130 | every centred binomial value lies in [-eta, eta] |
| KyberKem.PopCountExact | evolution/post_quantum_crypto.py:126-128 | the count of ones is the number of places below the width that hold a one |
| KyberKem.SampleCbd | evolution/post_quantum_crypto.py:117-130 | coefficient i is the number of places that hold a one in draw i, less eta, modulo q; it is the residue of a value in [-eta, eta] |
| KyberKem.DecapsSeesMessagePlusNoise | evolution/post_quantum_crypto.py:253-325 | the same identity for the coded operations modulo q |
| KyberKem.DecapsRecoversExactly | evolution/post_quantum_crypto.py:233-343 | decapsulation reads the encapsulated message if and only if that message survives the noise |
| KyberKem.SmallParametersAlwaysRecover | evolution/post_quantum_crypto.py:233-343 | with n = 256 and twice the noise limit below q//2, every message survives every choice of secrets and errors |
| KyberKem.DefaultParametersCanFail | evolution/post_quantum_crypto.py:36-41 | with the default parameters some admissible secrets leave noise that no message survives in all its bits |
| KyberParameters.ParametersRecoverExactly | evolution/post_quantum_crypto.py:233-343 | with n = 256, every message survives everything that centred binomial sampling can return if and only if twice the noise limit is below q//2 |
| KyberParameters.DrawsReach | evolution/post_quantum_crypto.py:117-130 | every polynomial with coefficients in [-eta, eta] can be drawn |
| HybridExchange.AccumulateProducts | evolution/post_quantum_crypto.py:253-258 | the accumulation loops compute start plus the inner product, modulo q |
| HybridExchange.SubtractProducts | evolution/post_quantum_crypto.py:323-325 | the loop of decaps computes start minus the inner product, modulo q |
| HybridExchange.Keygen | evolution/post_quantum_crypto.py:233-262 | the public key is A s + e for the matrix expanded from rho |
| HybridExchange.Encaps | evolution/post_quantum_crypto.py:264-308 | the ciphertext is (A^T r + e1, t^T r + e2 + encoded message), the key the hash of the message followed by the bytes of u and of v |
| HybridExchange.Decaps | evolution/post_quantum_crypto.py:310-343 | the key is the hash of the message decoded from v - s^T u followed by the bytes of u and of v |
| HybridExchange.Respond | evolution/post_quantum_crypto.py:598-627 | the responder's mixed key, written out as a hash of hashes with its two labels |
| HybridExchange.Finalize | evolution/post_quantum_crypto.py:629-649 | the initiator's mixed key, written out in the same way for the message it decodes |
| HybridExchange.MixedKeyDetermines | evolution/post_quantum_crypto.py:598-649 | two mixed keys agree exactly when the messages do, or one of two named pairs of different hash inputs collides |
| HybridExchange.VectorBytesJoin | evolution/post_quantum_crypto.py:185-190 | a vector is written polynomial by polynomial, in order |
| HybridExchange.KeyInputDetermines | evolution/post_quantum_crypto.py:304-308 | the hash input of a shared key determines the message and the whole ciphertext |
| HybridExchange.KeyBindsTranscript | evolution/post_quantum_crypto.py:598-649 | with 32-byte digests equal mixed keys come from equal public keys, messages and ciphertexts, or one of three named pairs of different hash inputs collides |
| HybridExchange.RunExchange | evolution/post_quantum_crypto.py:574-649 | a whole run ends with equal keys if and only if the message survives the noise, or the hash collides on the inputs for the message and for the one the initiator decodes |
| HybridExchange.RunFromDraws | evolution/post_quantum_crypto.py:233-649 | from the random bits on: small parameters always end with equal keys |
| TaskGraph.OrderExcludesCycles | agent/orchestrator.cpp:68-91 | a graph with a topological order has known dependencies and no cycle |
| TaskGraph.LeftOutExcludesSortable | agent/orchestrator.cpp:68-91 | stuck leftovers mean an unknown dependency or a cycle |
| TopologicalSort.BuildGraph | agent/orchestrator.cpp:71-78 | in-degrees count dependency entries, adjacency lists hold one entry per entry, repetitions included |
| TopologicalSort.Release | agent/orchestrator.cpp:86-88 | counting successors down queues exactly those that reach zero, once |
| TopologicalSort.Round | agent/orchestrator.cpp:83-89 | each round keeps counters, queue and order consistent |
| TopologicalSort.SortDecides | agent/orchestrator.cpp:83-90 | when the queue is empty, the order is complete exactly for sortable graphs |
| TopologicalSort.Sort | agent/orchestrator.cpp:68-91 | true exactly when all dependencies are known and the graph is acyclic; then the order is a duplicate-free permutation with dependencies first; every task left out is stuck |
| Scheduling.PassAdvances | agent/orchestrator.cpp:208-255 | after one more pass the completed tasks are exactly those not blocked for that many passes |
| Scheduling.Quiescent | agent/orchestrator.cpp:214-219 | once nothing is ready, further passes change nothing, so leaving the loop early is harmless |
| Scheduling.PassesSufficeExactly | agent/orchestrator.cpp:208-255 | k passes complete a pending graph exactly when it has no dependency chain of k + 1 tasks |
| Scheduling.CycleBlocks | agent/orchestrator.cpp:208-255 | a task on a cycle is blocked forever |
| Scheduling.ChainsAreShort | agent/orchestrator.cpp:208-255 | a chain in an acyclic graph is no longer than the graph |
| Scheduling.SortPredictsScheduling | agent/orchestrator.cpp:68-91 | a sortable graph is completed by as many passes as it has tasks, an unsortable one by no number of passes |
| Scheduling.EveryPassFindsWork | agent/orchestrator.cpp:208-255 | while a sortable graph is not completed, every pass finds a ready task, and only then |
| Scheduling.AddedTaskSorts | agent/orchestrator.cpp:11-14 | adding a task under a fresh id keeps a sortable graph sortable if and only if the graph already has its dependencies |
| Orchestrator.TaskDag.GetReadyTasks | agent/orchestrator.cpp:15-32 | lists exactly the pending tasks whose dependencies are all completed, once each |
| Orchestrator.TaskDag.CompleteTask | agent/orchestrator.cpp:33-40 | completes a known task with its result and touches nothing else |
| Orchestrator.TaskDag.AllCompleted | agent/orchestrator.cpp:49-55 | true exactly for a non-empty graph of completed tasks |
| Orchestrator.TaskDag.HasFailure | agent/orchestrator.cpp:56-62 | true exactly when some task failed |
| Orchestrator.TaskDag.IsSortable | agent/orchestrator.cpp:68-91 | the sort on the task table |
| Orchestrator.AgentOrchestrator.ChooseAgent | agent/orchestrator.cpp:222-235 | an agent of the wanted role if there is one, else any, none only without agents |
| Orchestrator.AgentOrchestrator.Dispatch | agent/orchestrator.cpp:236-253 | running, answered, polled: the task is completed with the handler's answer and the inbox is empty again |
| Orchestrator.AgentOrchestrator.DispatchAll | agent/orchestrator.cpp:221-254 | a pass completes exactly the tasks that were ready at its start, each with the answer of an agent fit for it |
| Orchestrator.AgentOrchestrator.RunPass | agent/orchestrator.cpp:208-255 | one iteration of the main loop; it ends the loop only when nothing is ready |
| Orchestrator.AgentOrchestrator.Run | agent/orchestrator.cpp:190-275 | no task is dispatched before its dependencies are completed, nor twice; after k passes exactly the tasks not blocked for k passes are completed; success means a non-empty, fully completed graph |
| Orchestrator.AgentOrchestrator.RunToTheEnd | agent/orchestrator.cpp:206-265 | a pending graph succeeds exactly when it is non-empty and nothing is blocked for 1000 passes; up to 1000 tasks, exactly when it sorts |
| BusModel.SendKeeps | agent/message_bus.cpp:52-98 | sending keeps numbering, chain and inboxes consistent with the log |
| BusModel.SameDigestAt | agent/message_bus.cpp:22-31 | without a collision between two logs, equal digests mean equal records and equal digests one position earlier |
| BusModel.StepKeeps | agent/message_bus.cpp:32-119 | every operation keeps the bus consistent |
| BusModel.PollHandsOver | agent/message_bus.cpp:109-119 | a poll moves the front of the inbox, the smaller of the limit and its length, to what the agent has got, and touches no other agent |
| BusModel.PollCatchesUp | agent/message_bus.cpp:109-119 | in every run, whoever polls for enough has then got everything the log holds for it since it registered |
| BusModel.SendDelivers | agent/message_bus.cpp:52-98 | a message from a live agent, to all or to a live agent, is logged with its own fields and put at the end of the inboxes of exactly its receivers; any other changes nothing |
| BusModel.BroadcastDelivers | agent/message_bus.cpp:99-104 | a broadcast goes to all live agents but its sender |
| BusModel.RegistrationExactly | agent/message_bus.cpp:32-51 | registering opens an empty inbox, removing closes it, and neither touches other agents, the log or the digest |
| BusModel.EveryRunIsConsistent | agent/message_bus.cpp:32-119 | in every interleaving accepted messages are numbered 1, 2, 3, ..., each carries the previous digest, and for each live agent polled + inbox is what the log holds for it since it registered |
| BusModel.LastDigestDeterminesLog | agent/message_bus.cpp:22-31 | two chained logs with the same last digest have the same length and the same authenticated record everywhere, or they hold two different records with one digest |
| BusModel.LastDigestDeterminesRun | agent/message_bus.cpp:22-68 | the same for any two runs of the bus |
| BusModel.BodyDeterminesFields | agent/message_bus.cpp:22-31 | if no id holds a bar, two records agree exactly when id, sender, receiver, kind, content and number do; the content may hold bars |
| BusModel.DecimalExactly | agent/message_bus.cpp:24-26 | numbers are written in decimal digits, without leading zeros |
| BusModel.RecordOfExample | agent/message_bus.cpp:24-26 | the order of the fields, at an example |
| BusModel.BarsCanConfuse | agent/message_bus.cpp:22-31 | two messages that differ in id and sender, with a bar in one of the two, have the same record |
| BusModel.LastDigestDeterminesFields | agent/message_bus.cpp:22-68 | for any two runs without bars in ids, equal last digests mean the same fields in every message, or a collision |
| MessageBus.MessageBus.RegisterAgent | agent/message_bus.cpp:32-44 | the model step of registration |
| MessageBus.MessageBus.UnregisterAgent | agent/message_bus.cpp:45-51 | the model step of removal |
| MessageBus.MessageBus.SendMessage | agent/message_bus.cpp:52-98 | the model step of sending; rejected exactly for an unknown sender or a direct message to an unknown agent; handlers are due for exactly the receivers, and for the subscriber to the receiver and kind |
| MessageBus.MessageBus.BroadcastMessage | agent/message_bus.cpp:99-104 | sends the message as a broadcast |
| MessageBus.MessageBus.Subscribe | agent/message_bus.cpp:105-108 | adds one subscription and keeps all others |
| MessageBus.MessageBus.PollMessages | agent/message_bus.cpp:109-119 | returns the front of the inbox, the smaller of max and its length, leaves the rest of it and all other inboxes, and nothing for an unknown agent; the model step |
| DriftMetric.RateSymmetric | evolution/evolution_validation.py:279-304 | the change rate is symmetric |
| DriftMetric.RateInUnitInterval | evolution/evolution_validation.py:279-304 | and lies in [0, 1] |
| DriftMetric.RateTriangle | evolution/evolution_validation.py:279-304 | and obeys the triangle inequality over differing key sets, for weights of either sign |
| DriftMetric.RateZero | evolution/evolution_validation.py:279-304 | and is zero exactly for maps that agree on every weight |
| DriftMetric.RateSize | evolution/evolution_validation.py:290-304 | it is the quotient of the total difference by the total weight, capped at one, and zero without weight |
| DriftMetric.RateTimesWeight | evolution/evolution_validation.py:290-304 | times the total weight it is the smaller of the total difference and that weight |
| DriftMetric.TotalsOfOne | evolution/evolution_validation.py:297-301 | over one key the totals are the distance of the two weights and the larger of their sizes, an absent weight being zero |
| DriftMetric.TotalsAddUp | evolution/evolution_validation.py:297-301 | and over disjoint keys they add up |
| DriftMetric.RateOfGrowth | evolution/evolution_validation.py:290-304 | one weight growing from x to y changes at the rate 1 - x/y |
| DriftMetric.RateOfStrangers | evolution/evolution_validation.py:290-304 | maps that share no non-zero weight are at rate one |
| DriftMetric.ComputeWeightChangeRate | evolution/evolution_validation.py:279-304 | the loop computes that rate |
| DriftMonitor.DriftCoversDistance | evolution/evolution_validation.py:393-409 | cumulative drift is at least the rate between the first and the last snapshot |
| DriftMonitor.DriftAddsUp | evolution/evolution_validation.py:393-409 | the drift of a run that goes on where another ended is the sum of both |
| DriftMonitor.DriftAppend | evolution/evolution_validation.py:393-409 | and one more snapshot adds its rate |
| DriftMonitor.TrailingRunExact | evolution/evolution_validation.py:180-214 | the stagnation counter is at least n exactly when the last n changes were below the threshold |
| DriftMonitor.SegmentDistance | evolution/evolution_validation.py:393-409 | n changes below the threshold move the weights by at most n thresholds |
| DriftMonitor.StagnationBoundsMovement | evolution/evolution_validation.py:180-214 | a stagnation run bounds how far the weights have moved since it began |
| DriftMonitor.FindOscillation | evolution/evolution_validation.py:237-277 | true exactly when all changes in the window are large and the main direction turns at all but one of the chances |
| DriftMonitor.MainDirectionExactly | evolution/evolution_validation.py:336-378 | the main direction counts the keys that rise by more than a tenth against those that fall by more than a tenth |
| DriftMonitor.TurnsExactly | evolution/evolution_validation.py:355-368 | the turns are the changes at which the main direction is up after down, or down after up |
| DriftMonitor.CalledExactly | evolution/evolution_validation.py:158-275 | an alert is raised exactly when it is due: stagnation after so many small changes, recovery at the first larger one, a spike, an oscillation, each for its own round |
| DriftMonitor.ConvergenceExactly | evolution/evolution_validation.py:413-420 | the convergence times the mean of the earlier half is the mean of the later half, unless that one was idle |
| DriftMonitor.CriticalExactly | evolution/evolution_validation.py:432 | the critical alerts are those of a stagnation |
| DriftMonitor.EvolutionDriftMonitor.RecordSnapshot | evolution/evolution_validation.py:125-178 | keeps the counter equal to the trailing run and raises exactly the stagnation, recovery, spike and oscillation alerts due, in that order |
| DriftMonitor.EvolutionDriftMonitor.DetectStagnation | evolution/evolution_validation.py:180-214 | the counter and its alerts |
| DriftMonitor.EvolutionDriftMonitor.LearningEffectiveness | evolution/evolution_validation.py:380-435 | unavailable below two snapshots; total drift at least the distance travelled, the averages, convergence, stagnation and alert counts |
| ContextModel.EnforceKeeps | evolution/memory_enhancement.py:279-287 | eviction keeps ids distinct across the levels, the cap, the books and every entry, for any rankings at the moments of the evictions |
| ContextBudget.LastEvictionNeeded | evolution/memory_enhancement.py:279-303 | before the last eviction the context was still over budget, however the ranking changes meanwhile |
| ContextBudget.EvictsShortestPrefix | evolution/memory_enhancement.py:279-303 | while the ranking stands still, eviction takes away a shortest prefix of the order of rank and position |
| ContextBudget.EnforceMeetsBudget | evolution/memory_enhancement.py:279-287 | eviction stops within the budget, with nothing left, or at an entry with the empty id; without such an id it ends over budget only for a negative budget |
| ContextBudget.OverBudgetExactly | evolution/memory_enhancement.py:279-303 | while the ranking stands still, eviction ends over budget if and only if the budget is negative, or the entry with the empty id and those not before it in the order exceed it |
| ContextBudget.EmptyIdCanOverrun | evolution/memory_enhancement.py:279-287 | an entry with the empty id can leave the context over budget |
| ContextModel.AddKeeps | evolution/memory_enhancement.py:141-163 | adding keeps the invariant, and a new id adds exactly its entry |
| ContextBudget.AddMeetsBudget | evolution/memory_enhancement.py:141-163 | adding an id that is not in the main context ends within a budget that is not negative, if no id is empty |
| ContextBudget.AddOverBudgetExactly | evolution/memory_enhancement.py:141-163 | exactly when adding ends over budget, while the ranking stands still: for a negative budget, or when the entry with the empty id and those not before it exceed it |
| ContextBudget.ReplacementOverBudgetExactly | evolution/memory_enhancement.py:148-151 | replacing an entry of the main context ends over budget exactly when the tokens do after the exchange |
| ContextBudget.ReplacementCanOverrun | evolution/memory_enhancement.py:148-151 | a replacement can leave a context over the budget it was within |
| ContextModel.RecallKeeps | evolution/memory_enhancement.py:316-324 | recalling neither gains an entry nor loses one but to overflow |
| ContextBudget.RecallMeetsBudget | evolution/memory_enhancement.py:316-324 | a recall ends within a budget that is not negative, if no id is empty |
| ContextBudget.RecallOverBudgetExactly | evolution/memory_enhancement.py:316-324 | exactly when a recall ends over budget, while the ranking stands still: as for adding |
| ContextModel.SearchKeeps | evolution/memory_enhancement.py:179-218 | so does a search with its recalls, for any hits |
| ContextModel.DeleteKeeps | evolution/memory_enhancement.py:715-726 | deletion keeps the invariant and removes the id from both levels |
| ContextModel.GetMoves | evolution/memory_enhancement.py:165-177 | looking up only moves entries, or loses them to overflow |
| ContextModel.EveryRunIsSound | evolution/memory_enhancement.py:141-324 | over all runs the levels stay disjoint, the archive within its cap, and its size equals page-outs minus page-ins, overflow and archive deletes |
| ContextEffects.TokensOfText | evolution/memory_enhancement.py:352-359 | a text costs one token more than a quarter of its letters and digits and two thirds of its other characters, rounded down, and the empty text none |
| ContextEffects.TokensJoin | evolution/memory_enhancement.py:349-350 | the tokens of a level add up |
| ContextEffects.PageOutExactly | evolution/memory_enhancement.py:305-314 | paging out moves an entry from its place to the young end of the archive; a full archive loses its oldest |
| ContextEffects.EvictionExactly | evolution/memory_enhancement.py:279-303 | nothing goes within the budget; over it the first entry of least rank goes, unless its id is empty |
| ContextEffects.AddExactly | evolution/memory_enhancement.py:141-163 | where an added entry goes and what leaves its place, for an id in the main context, in the archive or in neither |
| ContextEffects.RecallExactly | evolution/memory_enhancement.py:316-324 | a recall moves the entry to the young end of the main context and counts one page-in; if it fits, that is all |
| ContextEffects.GetExactly | evolution/memory_enhancement.py:165-177 | a look-up touches an entry of the main context and makes it the youngest, recalls one of the archive, and changes nothing for another id |
| ContextEffects.DeleteExactly | evolution/memory_enhancement.py:715-726 | the entry leaves its place, and nothing else changes |
| ContextEffects.HitStays | evolution/memory_enhancement.py:211-215 | a hit that is not recalled moves nothing; its entry has one access more, at the time of the hit |
| ContextEffects.HitRecalled | evolution/memory_enhancement.py:211-215 | a recalled hit counts one page-in and is touched where the eviction leaves it |
| ContextEffects.FittingHitRecalled | evolution/memory_enhancement.py:211-215 | if it fits, it ends as the youngest of the main context with one access more, and nothing else changes |
| ContextEffects.SearchEntries | evolution/memory_enhancement.py:179-218 | after any search every entry held was held before, with one access more for each hit that was for it, and the time of the last of these |
| ContextManager.SelectForPageOut | evolution/memory_enhancement.py:289-303 | the first entry of least rank |
| ContextManager.VirtualContextManager.EnforceBudget | evolution/memory_enhancement.py:279-287 | the eviction loop terminates and is the model function |
| ContextManager.VirtualContextManager.AddMemory | evolution/memory_enhancement.py:141-163 | the model step |
| ContextManager.VirtualContextManager.GetMemory | evolution/memory_enhancement.py:165-177 | the model step, returning exactly the entry held, touched when it was in the main context |
| ContextManager.VirtualContextManager.RecallEntry | evolution/memory_enhancement.py:316-324 | the model step |
| ContextManager.VirtualContextManager.TakeHits | evolution/memory_enhancement.py:207-218 | the loop over the ranked hits of a search; every entry then held has exactly the accesses of its hits |
| ContextManager.VirtualContextManager.DeleteMemory | evolution/memory_enhancement.py:715-726 | the model step, true exactly when the id was held |
| RelationGraph.VisitKeeps | evolution/memory_enhancement.py:767-784 | visiting the front of the queue keeps the traversal invariant |
| RelationGraph.RelationAdded | evolution/memory_enhancement.py:759-765 | the relation graph stays symmetric, also for a relation of a memory to itself |
| RelationGraph.AllReached | evolution/memory_enhancement.py:767-784 | with an empty queue every node within the depth is visited, at its distance |
| RelationGraph.TraversalEnds | evolution/memory_enhancement.py:767-784 | the visited nodes are exactly those within the depth, each at its shortest distance |
| RelationGraph.WalkBackwards | evolution/memory_enhancement.py:759-765 | in the symmetric graph being within reach is mutual |
| RelationGraph.TrackedAfterAdd | evolution/memory_enhancement.py:658-687 | every known id is held or was lost to overflow, and every held id is known, after an addition too |
| RelationGraph.UpdatedExactly | evolution/memory_enhancement.py:694-713 | after an update the entry of that id, if held, has exactly the given fields, its other ones, and one more version; all other records are as before |
| RelationGraph.SemanticMemoryStore.AddMemory | evolution/memory_enhancement.py:658-687 | adds to the context and to the known ids |
| RelationGraph.SemanticMemoryStore.UpdateMemory | evolution/memory_enhancement.py:694-713 | fetch, change and re-add: exactly the given fields of the entry held, and one more version |
| RelationGraph.SemanticMemoryStore.DeleteMemory | evolution/memory_enhancement.py:715-726 | forgets the id exactly when it was held |
| RelationGraph.SemanticMemoryStore.AddRelation | evolution/memory_enhancement.py:759-765 | adds the two directions and nothing else, only between known ids |
| RelationGraph.SemanticMemoryStore.GetRelated | evolution/memory_enhancement.py:767-784 | visits exactly the nodes within the depth, once each, also on cyclic graphs; answers those found with the records they had at the start, nearest first; a missing one was not held or overflowed meanwhile |
| ConfigTree.ApplySucceedsExactly | evolution/defense_enforcer.py:526-543 | an update raises no exception exactly when the nodes above its container are objects or absent and the container fits the action |
| ConfigTree.ApplyWrites | evolution/defense_enforcer.py:526-543 | the path then holds what the action writes |
| ConfigTree.ApplyVerifies | evolution/defense_executor.py:296-326 | verification after a successful update always succeeds |
| ConfigTree.ApplyFrames | evolution/defense_enforcer.py:526-543 | values at incomparable paths are unchanged |
| ConfigTree.UpdatesCommute | evolution/defense_enforcer.py:526-543 | updates at incomparable paths both still succeed in either order, with the same result |
| ConfigTree.SplitJoins | evolution/defense_enforcer.py:528 | no part of a key holds a dot, and joined with dots they are the key |
| ConfigTree.SplitOfJoined | evolution/defense_enforcer.py:528 | and these parts are the only such |
| ConfigTree.VerifyExactly | evolution/defense_executor.py:302-323 | the verification holds exactly when the value at the path is what the action was to leave there |
| ConfigTree.PyEqualExactly | evolution/defense_executor.py:317-323 | values are equal that are the same, or false and zero, or true and one |
| ConfigTree.ContainsExactly | evolution/defense_enforcer.py:531-537 | a key is in a string as a part, in a list as an item, in an object as a key |
| ConfigExecutor.AttemptExact | evolution/defense_executor.py:181-199 | a failed attempt has written nothing, only APPLY writes, and an APPLY attempt fails exactly when the update itself raises |
| ConfigExecutor.StatusExactly | evolution/defense_executor.py:125-231 | skipped exactly for one of the three executions of high risk that lacks a confirmation asked for; otherwise a success exactly when the update is feasible, else rolled back when asked for and possible |
| ConfigExecutor.SuccessWrites | evolution/defense_executor.py:274-294 | a success in APPLY leaves the value the action asks for at the place the dotted key names, and nothing changed off that path or in another file; a simulation does so to the snapshot |
| ConfigExecutor.TruthyExactly | evolution/defense_executor.py:209 | a snapshot counts unless it is missing, null, false, zero or empty |
| ConfigExecutor.ExecuteKeeps | evolution/defense_executor.py:125-231 | each execution that is not simulated extends the trace of file states |
| ConfigExecutor.ExecuteBalances | evolution/defense_executor.py:125-231 | in every mode total = success + failed + rolled back throughout, and only APPLY changes files |
| ConfigExecutor.SimulatedRollbackExactly | evolution/defense_executor.py:265-272 | exactly when rolling back a simulated success leaves the files as they were |
| ConfigExecutor.SimulationCanWrite | evolution/defense_executor.py:265-272 | the input on which a simulation, rolled back, changes the file |
| ConfigExecutor.RollbackRestores | evolution/defense_executor.py:372-383 | rollback_last restores all files to what they were before its window when every success in it has a non-empty snapshot |
| ConfigExecutor.RollbackOfNone | evolution/defense_executor.py:372-383 | rollback_last(0) is a rollback of the whole history |
| ConfigExecutor.RollbackOfNoneCanUndo | evolution/defense_executor.py:372-383 | the input on which a rollback of no execution takes back an update |
| ConfigExecutor.BatchIsTraced | evolution/defense_executor.py:233-235 | a batch from an empty history keeps the books, and is traced by the states after its prefixes unless simulated |
| ConfigExecutor.RollbackUndoesBatch | evolution/defense_executor.py:372-383 | rolling back the last n updates leaves the files as the rest of the batch left them |
| ConfigExecutor.RollbackRestoresExactly | evolution/defense_executor.py:372-383 | for each target, exactly when rollback_last restores its content before the window |
| ConfigExecutor.UndoPerTarget | evolution/defense_executor.py:372-383 | rollback_last leaves in each file the oldest snapshot of the window it can put back, or the file as it is |
| ConfigExecutor.CreationIsNotRolledBack | evolution/defense_executor.py:372-383 | an update that creates a file is not taken back |
| ConfigRuns.EveryRunBalances | evolution/defense_executor.py:125-383 | in every run, in every mode: total = success + failed + rolled back, total + skipped is the length of the history, and the success and rolled-back counters differ from the history by exactly the executions that rollbacks have undone |
| ConfigRuns.RollbackPutsBack | evolution/defense_executor.py:372-383 | in every run that is not simulated, a rollback leaves in each file what was there when the oldest execution that it undoes there began, and all other files as they are |
| ConfigRuns.NothingLeftNothingChanged | evolution/defense_executor.py:125-383 | in every run that is not simulated, a file for which the history has no success, or none any more, has the content it had at the start |
| ConfigRuns.DryRunWritesNothing | evolution/defense_executor.py:125-383 | in every dry run, rollbacks included, no file ever changes |
| ConfigRuns.AsIfNeverExecuted | evolution/defense_executor.py:372-383 | if its rollbacks find a non-empty snapshot for each success, a run leaves the files as they are when the executions that a rollback went over are never made |
| ConfigExecutor.DefenseRuleExecutor.ExecuteUpdate | evolution/defense_executor.py:125-231 | the model step, with confirmation, snapshot, automatic rollback and statistics; what is skipped, and what a success has written where |
| ConfigExecutor.DefenseRuleExecutor.ExecuteUpdates | evolution/defense_executor.py:233-235 | the batch, one result per update in order |
| ConfigExecutor.DefenseRuleExecutor.PerformUpdate | evolution/defense_executor.py:181-199 | the snapshot and the attempt in DRY_RUN, SIMULATE or APPLY mode |
| ConfigExecutor.DefenseRuleExecutor.RollbackLastExecutions | evolution/defense_executor.py:372-383 | undoes the window backwards and counts exactly the executions undone |
| RuleBreaker.StepKeeps | evolution/defense_rule_persistence.py:256-422 | every operation keeps the version table sound, and no broken version is repaired or forgotten |
| RuleBreaker.EveryRunIsSound | evolution/defense_rule_persistence.py:256-422 | in every run no active version is OPEN, CIRCUIT_BROKEN means a circuit not CLOSED, closed versions are below the threshold, and the trigger counter is the number of broken versions |
| RuleBreaker.DeployExactly | evolution/defense_rule_persistence.py:256-295 | a deployed version is new, monitored, unused and the active one |
| RuleBreaker.TriggerExactly | evolution/defense_rule_persistence.py:297-319 | a trigger is counted at the active version only, as a block or a false positive |
| RuleBreaker.PromotionExactly | evolution/defense_rule_persistence.py:297-319 | in every sequence of triggers since its deployment a version is ACTIVE exactly when at some moment at least four fifths of ten or more had been blocked |
| RuleBreaker.FailureCounts | evolution/defense_rule_persistence.py:321-349 | a failure that does not break is counted at the active version, with its time |
| RuleBreaker.FailureTrips | evolution/defense_rule_persistence.py:321-366 | the fifth failure of a closed version opens its circuit and counts one break |
| RuleBreaker.RollbackExactly | evolution/defense_rule_persistence.py:368-390 | the latest ACTIVE version but the last becomes active, its circuit closed and its failures reset, if there is one |
| RuleBreaker.HalfOpenExactly | evolution/defense_rule_persistence.py:403-422 | the first broken version whose last failure is a minute ago becomes active and half open, if there is one |
| RuleBreaker.CircuitBrokenExactly | evolution/defense_rule_persistence.py:392-401 | is_circuit_broken holds exactly when the rule has no active version but a broken one |
| RuleBreaker.RollbackChooses | evolution/defense_rule_persistence.py:368-382 | the fallback is the latest ACTIVE version but the last, its circuit closed and failures reset, if there is one |
| RuleBreaker.FailureAtThreshold | evolution/defense_rule_persistence.py:321-366 | the failure that reaches the threshold breaks exactly the active version and counts once; then the rule has an active version exactly when it may fall back and can |
| RulePersistence.DefenseRulePersistence.DeployRule | evolution/defense_rule_persistence.py:256-295 | the model step |
| RulePersistence.DefenseRulePersistence.RecordRuleTrigger | evolution/defense_rule_persistence.py:297-319 | the model step |
| RulePersistence.DefenseRulePersistence.FallBack | evolution/defense_rule_persistence.py:368-382 | the search loop finds the fallback, and reports whether it did |
| RulePersistence.DefenseRulePersistence.RollbackRule | evolution/defense_rule_persistence.py:384-390 | the manual rollback |
| RulePersistence.DefenseRulePersistence.TriggerCircuitBreak | evolution/defense_rule_persistence.py:351-366 | the model step |
| RulePersistence.DefenseRulePersistence.RecordRuleFailure | evolution/defense_rule_persistence.py:321-349 | the model step, true exactly when the circuit broke |
| RulePersistence.DefenseRulePersistence.AttemptHalfOpening | evolution/defense_rule_persistence.py:403-422 | the model step, true exactly when some broken version has cooled down |
| RulePersistence.DefenseRulePersistence.CheckCircuitBroken | evolution/defense_rule_persistence.py:392-401 | true exactly when there is no active but a broken version |
| LogTailer.SplitIsLines | evolution/log_consumer.py:163-167 | splitting at newlines gives the terminated lines and then the unfinished rest |
| LogTailer.LinesExactly | evolution/log_consumer.py:163-167 | the lines with their newlines, and then the rest, are the text, and none of them holds a newline |
| LogTailer.StripExactly | evolution/log_consumer.py:170 | stripping takes off exactly the leading and trailing blanks |
| LogTailer.NonBlankOfOne | evolution/log_consumer.py:169-171 | a line is handed on, stripped, unless it is blank all over |
| LogTailer.CutOffRestarts | evolution/log_consumer.py:147-155 | a file shorter than the position is read from its beginning, or skipped to its end |
| LogTailer.LinesConcatenate | evolution/log_consumer.py:157-167 | behind a complete line, text can be read piecewise |
| LogTailer.ReadKeeps | evolution/log_consumer.py:138-191 | a poll hands on exactly the complete lines it moves past |
| LogTailer.EveryRunIsFaithful | evolution/log_consumer.py:92-191 | however appends interleave with polls, stops and starts, the parser has got exactly the non-blank complete lines between the origin and the position, in order and once each; reading from the beginning, the origin is 0 |
| LogTailer.PollCatchesUp | evolution/log_consumer.py:138-191 | after a poll no complete line behind the origin is left |
| LogLateStart.OriginExactly | evolution/log_consumer.py:152-155 | otherwise the origin is the length of the file at the first running poll that found it non-empty, in every run |
| LogLateStart.LateStartExactly | evolution/log_consumer.py:138-191 | in every run, at each poll: exactly the lines completed since the first poll are handed on if and only if those completed before the file was first found non-empty are blank, and the unfinished line found then is blank or still unfinished |
| LogLateStart.SafeStartExactly | evolution/log_consumer.py:152-155 | every continuation of a first poll is exact if and only if it found text that does not end within a non-blank line |
| LogLateStart.HalfALine | evolution/log_consumer.py:152-155 | started after "ab", the consumer delivers "c" of the line "abc" |
| LogTailer.FileTailConsumer.Start | evolution/log_consumer.py:92-101 | resumes at the saved position, and keeps every run faithful |
| LogTailer.FileTailConsumer.Stop | evolution/log_consumer.py:103-108 | saves the position |
| LogTailer.FileTailConsumer.Poll | evolution/log_consumer.py:110-123 | one round of the tail loop is the model step |
| LogTailer.FileTailConsumer.ReadLines | evolution/log_consumer.py:138-172 | the reader computes the model function |
| KeywordIndex.CountingAdds | evolution/hybrid_retrieval.py:420-435 | counting a new document up gives the frequencies of the larger collection |
| KeywordIndex.UncountingRemoves | evolution/hybrid_retrieval.py:437-450 | counting a document down gives the frequencies without it |
| KeywordIndex.IndexIsDetermined | evolution/hybrid_retrieval.py:420-450 | the documents determine the frequency table |
| KeywordIndex.HistoryDoesNotMatter | evolution/hybrid_retrieval.py:420-458 | after any histories two indexes with the same documents agree in frequencies, count and average length |
| KeywordIndex.FrequencyFits | evolution/hybrid_retrieval.py:460-466 | a known term occurs in 1 to N documents |
| KeywordIndex.AverageMoves | evolution/hybrid_retrieval.py:452-458 | times the number of documents, the average length grows by the length of a new document |
| KeywordIndex.IdfIsPositive | evolution/hybrid_retrieval.py:460-466 | the logarithm of the term weight is taken of (N + 1) / (frequency + 1/2), always above one |
| KeywordIndex.KeywordRetriever.AddDocument | evolution/hybrid_retrieval.py:420-435 | adding or replacing keeps the index equal to one built from scratch |
| KeywordIndex.KeywordRetriever.RemoveDocument | evolution/hybrid_retrieval.py:437-450 | so does removing |
| KeywordIndex.KeywordRetriever.UpdateAvgLength | evolution/hybrid_retrieval.py:452-458 | the average is the total length over the count, zero for no documents |
| PolicyDecision.MatchRules | evolution/policy_guard.py:333-350 | the matching loop stops at a denial and raises at a malformed pattern; without either it names every applicable rule |
| PolicyDecision.SortedOrder | evolution/policy_guard.py:265-270 | the rules are looked at in the order of priority, then insertion |
| PolicyDecision.CheckExactly | evolution/policy_guard.py:333-367 | a check raises exactly when an enabled rule with a malformed pattern comes before every rule that denies; otherwise it is the strictest applicable action under the risk override |
| PolicyDecision.CheckOutcome | evolution/policy_guard.py:333-367 | the outcome from rules and risk alone: it raises when a malformed rule comes before every denial; else a denial or a risk above 0.7 denies, a rule asking for approval or a risk above 0.4 needs one, and all else is allowed |
| PolicyDecision.InjectionOnlyAdds | evolution/agent_policy_rag.py:264-291 | injection appends enabled rules that do not deny, and keeps all others in place |
| PolicyDecision.InjectedExactly | evolution/agent_policy_rag.py:264-291 | each hit of score 0.3 or more has its rule afterwards, and each rule added is that of such a hit, asking for approval exactly if it is critical |
| PolicyDecision.EnhancedIsNoWeaker | evolution/agent_policy_rag.py:107-132 | unless it raises, an enhanced check is never weaker than the plain one, which does not raise either, and denies exactly when that one denies |
| PolicyDecision.EnhancedRaisesExactly | evolution/agent_policy_rag.py:264-291 | an enhanced check raises exactly when the plain one does, or an injected pattern is malformed and every denial has a priority number above 150 |
| PolicyDecision.EnhancedCanRaise | evolution/agent_policy_rag.py:282-288 | for the tool name "run(" the plain check denies and the enhanced check raises |
| PolicyDecision.EnhancedExactly | evolution/agent_policy_rag.py:264-291 | it is stricter exactly when an otherwise allowed call matches an injected critical policy |
| PolicyDecision.PolicyGuard.AddRule | evolution/policy_guard.py:253-256 | afterwards the table has the rule and all others of other ids; a new id goes to the end, a known one keeps its place |
| PolicyDecision.PolicyGuard.RemoveRule | evolution/policy_guard.py:258-263 | removes it, true exactly when it was there |
| PolicyDecision.PolicyGuard.CheckToolCall | evolution/policy_guard.py:274-308 | raises or decides as above |
| PolicyDecision.PolicyGuard.InjectPolicies | evolution/agent_policy_rag.py:264-291 | reports exactly the ids it added |
| PolicyDecision.PolicyGuard.RemovePolicies | evolution/agent_policy_rag.py:293-296 | removes exactly the given ids |
| PolicyDecision.PolicyGuard.CheckWithRag | evolution/agent_policy_rag.py:107-132 | leaves the rule table as it found it, order included, also when it raises; otherwise never weaker than the plain check |
| Evolution.SortedDescending | evolution/population.py:85-87 | sorting by fitness gives a descending list (with the same members) |
| Sequences.SortedPermutes | evolution/population.py:85-87 | sorting is a permutation |
| Sequences.SortedOrder | evolution/population.py:85-87 | and stable: by key, and members with the same key in the order they had |
| Evolution.BestFitness | evolution/population.py:53-57 | the fitness of a member that no member exceeds |
| Evolution.ProduceOffspring | evolution/ga_loop.py:140-161 | the loop makes exactly the children of the parents, a crossing using up two neighbours; what the operators return may differ at every place |
| Evolution.OffspringExactly | evolution/ga_loop.py:140-161 | child by child: at which places children are made, and of which one or two parents |
| Evolution.EvolvedBest | evolution/ga_loop.py:96-127 | after a generation the best fitness is exactly the larger of the best before and the best offspring |
| Evolution.PassKeeps | evolution/ga_loop.py:96-127 | no generation loses the best fitness, whatever the operators return |
| Evolution.PassSize | evolution/ga_loop.py:96-127 | the size after a pass, whatever the operators return: the elites there are and the children, cut to size; the children are between half of the parents, rounded up, and all of them |
| Evolution.SizeGuaranteedExactly | evolution/ga_loop.py:96-161 | it does so for every toss of the coin if and only if the elites there are and half of the selected parents, rounded up, are enough |
| Evolution.FullSelectionSuffices | evolution/selector.py:31-41 | so for a selector that returns as many parents as asked for |
| Evolution.RouletteCanFail | evolution/selector.py:51-57 | and not for roulette selection without fitness, which returns no one twice |
| Evolution.AverageBelowBest | evolution/population.py:67-71 | the average fitness is never above the best |
| Evolution.AverageExactly | evolution/population.py:67-71 | the average times the number of individuals is their total fitness |
| Evolution.ElitesExactly | evolution/population.py:73-83 | the elites are the fittest, as many as there are to be, and the others all the rest |
| Evolution.SurvivorsExactly | evolution/ga_loop.py:113-122 | the survivors of a generation are the fittest of elites and offspring, at most size of them |
| Evolution.Population.Trim | evolution/population.py:89-93 | keeps the fittest, at most size of them |
| Evolution.Population.NextGeneration | evolution/population.py:95-103 | counts the generation and records the best and the average fitness |
| Evolution.GaLoop.Evolve | evolution/ga_loop.py:96-127 | one pass makes exactly the model's next population, whatever the operators return in this generation and at each place |
| Evolution.GaLoop.Pass | evolution/ga_loop.py:96-127 | one pass never lowers the best fitness, keeps the elites and at most size; within the bounds for a full selection |
| Evolution.GaLoop.Run | evolution/ga_loop.py:87-138 | in any run, also of a population that has run before, the history of the best fitness never falls and is only extended, by at most max_generations entries; the run ends early exactly at the target; the size stays between that of the elites and size, and within the bounds for full selections |

## Left out

- Dilithium signatures, readiness scoring and key migration (evolution/post_quantum_crypto.py): not modelled.
- Expansion of the matrix from its seed: any function of rho; hashes and random bytes are inputs. The initiator's own `classic_shared`, which nothing reads, is not computed.
- Parameter sets with n > 256, k > 256 or q > 65536: `encaps` indexes 32 message bytes by coefficient, the matrix expansion writes an index in one byte and `to_bytes` a coefficient in two, so an exception is raised there.
- Timestamps and tool fields of bus messages and the execution of handlers: a handler's own messages are further events of a run; `totalMessages` is unbounded.
- BusModel.LastDigestDeterminesLog: states equality of the authenticated strings, not of the single fields, because the bar that joins the fields may occur in an id (`BusModel.BarsCanConfuse`); the task id is not authenticated; logs are shorter than 2^64.
- Goal decomposition, task durations, the run summary and `fail_task`, which nothing calls; a worker's reply carries no status, so every answered task is completed.
- Orchestrator.AgentOrchestrator.Run: timeout and stop appear as the number of passes that may start; handlers return, and registered workers stay registered.
- DriftMonitor.EvolutionDriftMonitor.LearningEffectiveness: leaves out the Kullback-Leibler figures, which need a logarithm; metrics of a snapshot other than its weights and event count are left out.
- The scoring of search hits and the ranking formula of eviction: the results hold for any hits and any rankings, one for each eviction. `archive_oldest`, persistence and the fields of an entry that paging and `update` do not touch are left out.
- A memory entry is a value: the source mutates the object it shares between fetch and re-add.
- Configuration files that are not JSON, the audit log, and a failing disk.
- ConfigTree.ApplyVerifies: update values are JSON; a tuple or a dictionary with integer keys comes back from the file as another value, and fails the verification.
- ConfigExecutor.AttemptExact: update values are JSON; for one that `json.dump` rejects the source raises after it has truncated the file, so that a failed attempt has written.
- ConfigTree.Apply: rebuilds the path it descends, where the source mutates nested dictionaries in place; equality of booleans and numbers nested inside lists or objects is structural.
- Reload and persistence of rule versions, and the fields of a version that the breaker does not read; a version is known by its rule and index.
- Rotation and truncation by others of the tailed file, multi-byte text, carriage returns, the bounded event queue and the parsers.
- Tokenising, the logarithm itself and the search of the keyword index.
- Regular expressions and risk scoring of the policy guard: what comes of matching a rule, an error included, and the risk are inputs; statistics, the approval queue and learning of policies are left out.
- Evaluation, selection, mutation and crossover of the genetic loop are inputs; snapshots and callbacks are left out; individuals are values.
- The other modules of the repository (gang scheduling, retrieval engines, quantum-inspired and spiking-network heuristics, eBPF, language-model adapters, sandbox tools, reports): heuristics, plumbing or simple counters.
