# Verification of the blackbase runtime substrate

This project models the protocols and stores that the substrate's value rests on, and proves what
they guarantee on every input, every run and every interleaving.

- **Evaluation evidence journal** (`EvidenceJournal`, `OptimisticLoop`, `JsonJournal`,
  `RedisJournal`, `Wire`).  One
  versioned record per evaluation event moves through preparing, pending, deciding and a terminal
  stage.  The five updaters are pure functions; the in-memory journal runs them under a lock, the
  distributed one in a WATCH/GET/EXEC loop, which is modelled for any updater as interleaved client steps.
- **Snapshot stores** (`MemorySnapshots`, `FileSnapshots`).  The in-memory store keeps data, expiries, pin
  owners and saved expiries in four dictionaries.  The file store writes payload files and then
  replaces a meta file, with crashes, exceptions between any two steps and concurrent readers.
- **Parallel pipeline slots** (`RunControls`, `ParallelSlots`, `LateWriteFences`, `BranchIsolation`,
  `SlotIsolation`).
  Scheduling, completion order, deadlines and cancellation are chosen freely at each step.
- **DAG stage planner** (`Graphs`, `TopologicalOrder`, `DagPlanner`).
- **Object detacher and value codec** (`ContextDetacher`; `Json`, `SafeCodec`, `SafeDecoder`,
  `EncodedForms`, `CodecRoundTrip`, `CodecLimits`, `RedisValueCodec`, `CodecLosses`,
  `DecodedValues`).
- **Child-Case stages** (`ArtifactRegistry`, `CaseStages`, `CaseStageRunner`).
- **Runtime projections** (`Digests`, `RuntimeProjections`, `ProjectionAggregation`,
  `ProjectionEvidence`, `ProjectionAudit`, `ProjectionText`).
- **Batch dispositions** (`BatchDispositions`).

Assumptions: the clock is an argument, SHA-256 gives different digests for different input, and
identifiers are already trimmed.  `dafny verify dfyconfig.toml` checks the whole project.

## Where the code does less than it may seem to promise

Each of these is proved as an exact condition or with a concrete run.

- Repeating `prepare_disposition` in memory succeeds if and only if the intent holds no sequence: the stored
  intent holds tuples, the repeated one lists (`RetryIsIdempotentIff`).  In a journal that keeps JSON text
  a NaN in the intent also prevents it, and one in a reserved identity or in a receipt prevents the
  repetition of those calls (`TextRetryIsIdempotentIff`, `NanIntentIsRefusedAgain`).
- An intent without a destination key can never be settled (`SettleableIff`); one run shows both
  (`PreparedButNeitherRepeatableNorSettleable`).
- An exception between the replace of the meta file and the assignment of the committed flag deletes
  the payload files just committed, and later reads fail; an exception anywhere else is harmless
  (`AbortIsSafeIff`, `AbortInWindowIsNoticed`, `WindowIsReachable`).
- Unpinning a key that nobody pins hides an expiry that stays enforced, and only that breaks the simple
  reading of the in-memory store (`EveryRunRefinesSimpleStore`, `StrayUnpinHidesExpiry`,
  `StrayUnpinForgetsExpiry`).
- Strict mode aborts if and only if siblings of the same batch are pending, so with one worker every
  branch still runs (`StrictFailureIff`, `RunParallel`).
- An operator that raises `SystemExit` or `KeyboardInterrupt` ends the slot without a report (`RunParallel`).
- The write fence covers listed methods, item assignment and item deletion, on a handle and its stores
  only, and a write that passed its check may land later (`UnfencedCallsWriteLate`, `CheckedWriteLandsLate`).
- When `deepcopy` fails the input's own `copy` is taken, in strict mode too, and without one
  non-strict mode shares the input: branches then share its nested parts and interleaving matters
  (`SharedPartMixesBranches`, `StrictModeAcceptsShallowCopies`, `IsolationIff`).
- The planner attributes the artifact `b.x` of a case named like its stage to the case `b`
  (`CaseKeyNamesItsProducerIff`, `CaseNamedLikeItsStageIsMisread`).
- The default codec limits accept a list of a million integers for writing and refuse it for reading
  (`DefaultLimitsRefuseTheirOwnOutput`); the same happens to collections of
  subclasses and to mappings whose keys are mappings (`NamedTupleIsWrittenButRefused`, `MappingKeyIsWrittenButRefused`).
- A zero-dimensional array comes back with one dimension and a structured array without its fields
  (`ZeroDimensionalArrayGainsADimension`, `StructuredArrayLosesItsFields`); `LoadsInvertsDumpsIff` has
  the exact condition for a value to come back.
- The detacher hands on the item of a NumPy scalar without looking inside: a structured scalar passes
  the lists and foreign objects of its fields (`DetachContextValue`, `StructuredScalarIsHandedOn`).
- A lone surrogate in a sample text that is not shortened makes `as_audit` raise (`AsAudit`).

## Model

| member | source | states |
|---|---|---|
| Wire.ThawIsIdentityIff | src/blackbase/wire.py:9-54 | thawing changes a value exactly when it holds a sequence somewhere |
| EvidenceJournal.DetachIsIdentity | src/blackbase/evaluation/journal.py:574-593 | turning a valid record into plain data and back, as the in-memory journal does before storing or returning it, changes nothing |
| EvidenceJournal.DigestIsInjective | src/blackbase/evaluation/event.py:241-257 | two valid dispositions have the same digest exactly when they are equal up to the identity of their NaN objects |
| EvidenceJournal.FirstAnswer | src/blackbase/evaluation/journal.py:319-351 | for an event without a record a well-formed reservation leaves exactly the record offered, and everything else is malformed or a conflict |
| EvidenceJournal.LaterAnswer | src/blackbase/evaluation/journal.py:271-545 | for any operation on an event with a record: a malformed call is invalid, a wrong expected revision stale, any disagreement of run, key, identity, intent, receipt or stage a conflict, and every other call succeeds with exactly one new version or none |
| EvidenceJournal.StepKeepsStage | src/blackbase/evaluation/journal.py:282-545 | every successful operation keeps "the stage fixes the revision", advances the record or leaves it unchanged, and adds one revision or none |
| EvidenceJournal.OnlyMalformedRequestsAreInvalid | src/blackbase/evaluation/journal.py:52-165 | with a clock that does not run backwards, a constructor failure happens exactly for malformed arguments, never through an updater's own record |
| EvidenceJournal.RetryIsIdempotentIff | src/blackbase/evaluation/journal.py:319-545 | in the journal that keeps objects, repeating any successful call with the same arguments returns the stored record and changes nothing, except a prepare whose intent holds a sequence, which is refused |
| EvidenceJournal.PrepareLeavesIntent | src/blackbase/evaluation/journal.py:391-431 | after a successful prepare the record holds exactly the offered intent, in stage deciding or already decided with the same decision |
| EvidenceJournal.SettleLeavesReceipt | src/blackbase/evaluation/journal.py:433-513 | after a successful settle the record is decided as its intent says and holds exactly the offered receipt, which matches event, destination and intent digest |
| EvidenceJournal.ConditionalRetryIsStale | src/blackbase/evaluation/journal.py:271-280 | repeating a conditional call that took effect is refused as stale |
| EvidenceJournal.SettleableIff | src/blackbase/evaluation/event.py:283-354 | some valid receipt settles a deciding record exactly when its expected destination key is non-empty |
| EvidenceJournal.UndeliverableIntentOnlyAbandons | src/blackbase/evaluation/journal.py:433-545 | a deciding record without destination can only be abandoned |
| EvidenceJournal.PreparedButNeitherRepeatableNorSettleable | src/blackbase/evaluation/journal.py:319-513 | a run in which reserve, mark and prepare succeed, repeating the prepare is a conflict, and no valid receipt settles the record |
| EvidenceJournal.LockedKeepsInvariant | src/blackbase/evaluation/journal.py:585-593 | one locked update keeps every record staged, moves each forward only, and touches one key |
| EvidenceJournal.InMemoryJournal.AtomicUpdate | src/blackbase/evaluation/journal.py:585-593 | the in-memory journal replaces its records by those of the locked specification and returns the same answer |
| EvidenceJournal.InMemoryJournal.Read | src/blackbase/evaluation/journal.py:595-598 | reading returns the stored record unchanged, or nothing |
| JsonJournal.DecodeIsReload | src/blackbase/evaluation/journal.py:803-819 | writing a valid record as JSON text and reading it gives a valid record that differs only in that its NaN objects are new |
| JsonJournal.LockedKeepsTexts | src/blackbase/evaluation/journal.py:319-545 | one update of a journal that keeps text leaves staged texts, moves each forward only, and touches one key |
| JsonJournal.TextRetryIsIdempotentIff | src/blackbase/evaluation/journal.py:319-545 | in a journal that keeps text, repeating a successful call returns the stored record and changes nothing exactly when a reservation has no NaN in its identity, a prepared intent has neither NaN nor sequence, and a receipt has no NaN in its metadata or time; marking and abandoning can always be repeated |
| JsonJournal.NanIntentIsRepeatableInMemory | src/blackbase/evaluation/journal.py:379-431 | a run in which an intent holding NaN is prepared twice in memory with the same answer |
| JsonJournal.NanIntentIsRefusedAgain | src/blackbase/evaluation/journal.py:803-839 | the same run on a journal that keeps text ends in a conflict |
| OptimisticLoop.StepIsSound | src/blackbase/evaluation/journal.py:818-839 | every step of every client keeps the shared records equal to the locked store replaying the log, and every open call consistent with it |
| OptimisticLoop.ExecuteIsSound | src/blackbase/evaluation/journal.py:830-839 | executing keeps that law, whether it succeeds or loses its WATCH |
| OptimisticLoop.EveryRunIsLinearizable | src/blackbase/evaluation/journal.py:818-839 | in every interleaving each answered call has exactly one log entry, made while it ran, with the locked store's outcome; losing a WATCH or running out of retries changes nothing |
| OptimisticLoop.RealTimeOrder | src/blackbase/evaluation/journal.py:818-839 | a call that begins after another was answered comes later in the log |
| OptimisticLoop.OutOfRetriesMeansContention | src/blackbase/evaluation/journal.py:824-839 | a call runs out of retries only when at least that many writes by others hit its key while it ran |
| OptimisticLoop.UndisturbedExecuteCommits | src/blackbase/evaluation/journal.py:830-835 | a call whose key nobody wrote since its WATCH stores its update and is answered with it |
| OptimisticLoop.UndisturbedAttemptIsLocked | src/blackbase/evaluation/journal.py:824-835 | a WATCH, read and EXEC with any steps of others in between, none of which writes the key, leave the records and the answer of one update under the lock |
| OptimisticLoop.LoneCallIsLocked | src/blackbase/evaluation/journal.py:818-835 | a call of a client alone has the records and the answer of the locked store |
| OptimisticLoop.LosingAllMeansOutOfRetries | src/blackbase/evaluation/journal.py:824-839 | a call that loses every attempt starts again until the limit and is then out of retries |
| RedisJournal.EveryRunKeepsStages | src/blackbase/evaluation/journal.py:319-545 | every record of every interleaved run obeys the stage and revision law |
| RedisJournal.EveryRunOnlyAdvances | src/blackbase/evaluation/journal.py:282-317 | between any two points of an interleaved run identity, keys and creation time stay, an intent stays once present, and stages only advance |
| RedisJournal.RevisionsAreNeverReused | src/blackbase/evaluation/journal.py:271-280 | two answers for one event carry the same revision exactly when they have the same text |
| RedisJournal.SettlesAgree | src/blackbase/evaluation/journal.py:433-513 | all successful settle calls for one event return the text of one decided record, which holds the receipt of each of them |
| MemorySnapshots.MemoryStore.Sweep | src/blackbase/context/snapshot_store.py:214-225 | the sweep loop removes exactly the due keys from all tables |
| MemorySnapshots.MemoryStore.Put | src/blackbase/context/snapshot_store.py:227-289 | a write changes the four tables as specified, or refuses after the sweep |
| MemorySnapshots.MemoryStore.Fetch | src/blackbase/context/snapshot_store.py:291-314 | a read sweeps and returns the live record |
| MemorySnapshots.MemoryStore.Remove | src/blackbase/context/snapshot_store.py:316-323 | a delete is refused for pinned keys and otherwise removes the key |
| MemorySnapshots.MemoryStore.AddPin | src/blackbase/context/snapshot_store.py:325-358 | a pin saves the expiry at the first owner and suspends it, without sweeping first |
| MemorySnapshots.MemoryStore.DropPin | src/blackbase/context/snapshot_store.py:360-398 | an unpin removes one owner and restores the saved expiry at the last |
| MemorySnapshots.EveryRunKeepsConsistent | src/blackbase/context/snapshot_store.py:214-398 | in every run pins and saved expiries have the same keys, and pinned keys are live and absent from the expiry table |
| MemorySnapshots.PinnedSnapshotSurvives | src/blackbase/context/snapshot_store.py:214-358 | through any operations that leave one owner on it, a pinned key stays pinned and readable, keeps its saved expiry, and its revision grows by exactly the accepted writes |
| MemorySnapshots.SavedExpiryStays | src/blackbase/context/snapshot_store.py:325-398 | the expiry saved at the first pin stays while the key is pinned, whatever owners come and go and whatever is written |
| MemorySnapshots.LastUnpinRestoresExpiryIff | src/blackbase/context/snapshot_store.py:325-398 | releasing the last owner restores the expiry from before the first pin exactly when the record had shown it |
| MemorySnapshots.TablesRefineSimpleStore | src/blackbase/context/snapshot_store.py:198-398 | one operation has the state and reply of a simple map from keys to content, owners and deadline, unless it is a stray unpin; exactly a stray unpin makes a record hide its expiry |
| MemorySnapshots.EveryRunRefinesSimpleStore | src/blackbase/context/snapshot_store.py:198-398 | along any run without a stray unpin the final state and every reply are those of the simple store, and exactly in such runs every record shows its enforced expiry throughout |
| MemorySnapshots.WriteIsRefusedIff | src/blackbase/context/snapshot_store.py:227-262 | a write is refused as write-once exactly if the key is live after the sweep, as a revision conflict exactly if the expected revision is not the live one, and as unencodable otherwise exactly if it cannot be copied |
| MemorySnapshots.AcceptedWriteStores | src/blackbase/context/snapshot_store.py:252-289 | an accepted write stores what it was given one revision after the live one, so after the expected one |
| MemorySnapshots.WrittenLivesUntil | src/blackbase/context/snapshot_store.py:252-314 | a written unpinned snapshot is found exactly before the end of the lifetime given, else of the default one, and for ever without a positive one |
| MemorySnapshots.PinnedWriteLives | src/blackbase/context/snapshot_store.py:252-314 | an overwritten pinned snapshot is found at any time |
| MemorySnapshots.OthersAnswer | src/blackbase/context/snapshot_store.py:316-398 | when deletes, pins and unpins are refused, and which owners and keys they leave |
| MemorySnapshots.UnpinStaysCoherentIff | src/blackbase/context/snapshot_store.py:366-387 | an unpin leaves every record showing its enforced expiry unless it is a stray one |
| MemorySnapshots.StrayUnpinHidesExpiry | src/blackbase/context/snapshot_store.py:366-398 | write for ten seconds, then unpin without a pin: the reply shows no expiry, and a read at second twenty finds nothing |
| MemorySnapshots.StrayUnpinForgetsExpiry | src/blackbase/context/snapshot_store.py:325-398 | pinned and unpinned once more that snapshot is still found at any later time, where the simple store has dropped it |
| FileSnapshots.StepKeepsInvariant | src/blackbase/context/snapshot_store.py:931-1031 | every step of writer, crash, exception or reader keeps the existing payload files of every commit whole and each answer sound; every step but an exception in the unsafe window keeps the files of the latest commit present |
| FileSnapshots.CleaningKeepsLatest | src/blackbase/context/snapshot_store.py:1093-1112 | removing replaced payload files never removes one of the revision just installed |
| FileSnapshots.EveryReadIsWhole | src/blackbase/context/snapshot_store.py:1132-1217 | in every run, wherever the writer stops, a concurrent read returns nothing before the first commit, one whole committed snapshot, or a digest error, never a mixture; without an exception in the unsafe window a digest error means that a later commit was made |
| FileSnapshots.UndisturbedReadReturnsLatest | src/blackbase/context/snapshot_store.py:1132-1217 | unless an exception hit the unsafe window, a read during which the writer takes no step returns the latest commit |
| FileSnapshots.LoneReadReturnsLatest | src/blackbase/context/snapshot_store.py:1132-1217 | the same for the four steps of a reader in the store |
| FileSnapshots.AbortIsSafeIff | src/blackbase/context/snapshot_store.py:1001-1031 | an exception keeps the committed snapshot durable except between the replace and the committed flag, when it holds payload files |
| FileSnapshots.AbortInWindowIsNoticed | src/blackbase/context/snapshot_store.py:1001-1031 | after an exception in that window even an undisturbed read of the latest commit fails with a digest error |
| FileSnapshots.WindowIsReachable | src/blackbase/context/snapshot_store.py:931-1031 | the first write of one array reaches the window |
| FileSnapshots.StartsIff | src/blackbase/context/snapshot_store.py:931-960 | a write begins exactly if write-once finds no commit and the expected revision is that of the latest one; otherwise nothing changes |
| FileSnapshots.LoneWriteCommits | src/blackbase/context/snapshot_store.py:960-1031 | a write that begins and is left alone adds exactly one commit, with its content and the next revision |
| FileSnapshots.CleaningRemovesReplaced | src/blackbase/context/snapshot_store.py:1093-1112 | the payload files of the replaced revision are gone after the cleanup |
| FileSnapshots.AbortLeavesNothing | src/blackbase/context/snapshot_store.py:1001-1031 | an exception before the replace leaves metadata and commits alone and no finished payload file of the transaction |
| RunControls.RunControl.constructor | src/blackbase/kernel/orchestrator.py:76-94 | a new run is active and not cancelled, under its parent's chain |
| RunControls.RunControl.Cancel | src/blackbase/kernel/orchestrator.py:127-131 | the first reason is kept and the signal stays set |
| RunControls.RunControl.AssertWritable | src/blackbase/kernel/orchestrator.py:141-149 | a write is refused exactly when the run has ended or any enclosing one was cancelled, and says which |
| ParallelSlots.CollectFutureBatch | src/blackbase/kernel/orchestrator.py:498-569 | whatever the completion order, each branch of the batch succeeds with what its call yielded or has one failure, which is its own, a noticed cancellation, or being given up, unless a branch raises what is not an Exception, which then passes through; the rounds of the batch stop at a cancellation, at a passed deadline, and after a round with a failure that leaves siblings pending in a strict slot, and only then; the rest is then dropped for that reason |
| ParallelSlots.CollectPoolBatch | src/blackbase/kernel/orchestrator.py:571-639 | the same for polled pool handles |
| ParallelSlots.StrictFailureIff | src/blackbase/kernel/orchestrator.py:567-568 | a batch aborts strictly exactly if a round with a failure leaves siblings pending in a strict slot that cancels on error |
| ParallelSlots.PassedDeadlineEndsBatch | src/blackbase/kernel/orchestrator.py:535-551 | no round follows a check that finds the deadline passed, and at the first check the whole batch is dropped |
| ParallelSlots.InOrderLists | src/blackbase/kernel/orchestrator.py:814 | the results are those of the successful branches, each once and in branch order |
| ParallelSlots.UncopyableInputIsRefused | src/blackbase/kernel/orchestrator.py:351-362 | in strict mode an input without any copy fails every branch with a TypeError |
| ParallelSlots.BranchCalls | src/blackbase/kernel/orchestrator.py:708-724 | an operator without a callable passes its input through, and with a copy of the input a branch yields what its call yields |
| ParallelSlots.UnsubmittedTells | src/blackbase/kernel/orchestrator.py:792-812 | a branch marked as never submitted is cancelled and not running, with the error and message of a deadline exactly if the slot was stopped at one |
| ParallelSlots.AuditTells | src/blackbase/kernel/orchestrator.py:465-497 | the audit holds the given counts, results and failures, and its flags tell of any failure that has them |
| ParallelSlots.CancelPending | src/blackbase/kernel/orchestrator.py:512-532 | every pending branch, and nothing else, is reported once with its operator and the given cause, and is not running when its cancellation took effect |
| ParallelSlots.MarkUnsubmitted | src/blackbase/kernel/orchestrator.py:792-812 | after an abort exactly the branches that were neither completed nor failed are added, as cancelled or timed out |
| ParallelSlots.SortsByIndex | src/blackbase/kernel/orchestrator.py:815 | sorting the failures keeps them all and puts them in strictly ascending branch order |
| ParallelSlots.RunParallel | src/blackbase/kernel/orchestrator.py:667-826 | unless a branch raises what is not an Exception, which then passes through without a report: conservation on every run; whole batches in order up to the first aborted one, each with its course as above, and the branches after it marked as never submitted; counts sum to the branch count; strict mode raises exactly when something failed; no failure means that the yields of all branches are returned in order, and the sequential map if no branch notices the others; without interference failures mean that some branch fails by itself; the run is closed in every case |
| ParallelSlots.WorkerLimit | src/blackbase/kernel/orchestrator.py:411-430 | the number of workers is that of the granted threads but at most that of the branches, and at least one |
| LateWriteFences.ControlsOnlyEnd | src/blackbase/kernel/orchestrator.py:127-135 | over every run cancelling and closing are one-way and parents never change |
| LateWriteFences.HandlesWrapEnclosingRuns | src/blackbase/kernel/orchestrator.py:364-401 | a handle given to a nested slot is wrapped once for its run and each enclosing one, innermost outside |
| LateWriteFences.FencedMethodsCheckEveryWrapper | src/blackbase/kernel/orchestrator.py:171-202 | a method reached from a handle checks every wrapper, from outside in, if it is a listed method or an item assignment or deletion and only store attributes lead to it; otherwise it checks nothing |
| LateWriteFences.CallsCheckEnclosingRuns | src/blackbase/kernel/orchestrator.py:171-202 | such a call through a run's handle checks exactly the enclosing runs, innermost first, and any other call checks nothing |
| LateWriteFences.LandedWritesPassedEveryFence | src/blackbase/kernel/orchestrator.py:152-211 | such a call lands only after passing each enclosing run, innermost first, at a time when that run and its ancestors were live; once a run has ended only calls checked before can still land |
| LateWriteFences.UnfencedCallsWriteLate | src/blackbase/kernel/orchestrator.py:155-191 | any other call writes even when begun after its run was closed |
| LateWriteFences.CheckedWriteLandsLate | src/blackbase/kernel/orchestrator.py:187-202 | a checked write lands after its run was closed in between |
| LateWriteFences.LandedCallsBeganLive | src/blackbase/kernel/orchestrator.py:152-211 | a fenced call lands only if its run and every enclosing one were live when it began |
| LateWriteFences.WritesAreFenced | src/blackbase/kernel/orchestrator.py:155-202 | the ten listed methods, item assignment and item deletion are fenced on a handle and on its stores |
| BranchIsolation.EveryInterleavingIsSequential | src/blackbase/kernel/orchestrator.py:344-362 | at any time of any interleaving a finished branch sees what its mutations alone make of the input, if the copy is deep, the branch is the only one, or no program mutates what the copy shares |
| BranchIsolation.SharedPartMixesBranches | src/blackbase/kernel/orchestrator.py:354-362 | with a shallow copy or none, two branches that append to a nested list see each other |
| BranchIsolation.StrictModeAcceptsShallowCopies | src/blackbase/kernel/orchestrator.py:351-362 | strict mode takes the object's own shallow copy when deepcopy fails, so this happens there too |
| BranchIsolation.IsolationIff | src/blackbase/kernel/orchestrator.py:344-362 | all programs are isolated in all interleavings exactly with a deep copy or a single branch |
| BranchIsolation.CopyIsChosen | src/blackbase/kernel/orchestrator.py:351-362 | a deep copy is taken whenever it works; strict mode refuses and the other mode shares the input exactly if neither copy works |
| BranchIsolation.OnlyFinishedBranchesStop | src/blackbase/kernel/orchestrator.py:344-362 | under isolation a branch can always go on until it is finished |
| BranchIsolation.LoneBranchIsSequential | src/blackbase/kernel/orchestrator.py:354-362 | one branch alone is sequential whatever the copy |
| SlotIsolation.IsolatedSlotRunsAlone | src/blackbase/kernel/orchestrator.py:344-362 | a slot whose branches run in such an interleaving meets the condition under which RunParallel returns the sequential map |
| Graphs.CycleIffLongChain | src/blackbase/project/dag.py:223-244 | a case reaches a cycle exactly when it starts a dependency chain as long as the number of cases |
| TopologicalOrder.StableTopologicalOrder | src/blackbase/project/dag.py:223-244 | the result is the plan order, or it fails exactly when the graph has a cycle and then reports precisely the cases that reach one, in declaration order |
| TopologicalOrder.PlanOrderRespectsDependencies | src/blackbase/project/dag.py:223-244 | a plan order is a permutation in which every dependency comes first |
| TopologicalOrder.PlanOrderIsUnique | src/blackbase/project/dag.py:223-244 | the graph alone fixes the order: the order inside dependency tuples is irrelevant |
| TopologicalOrder.WavesAreSorted | src/blackbase/project/dag.py:228-243 | the waves list cases by longest dependency chain, then by declaration |
| TopologicalOrder.StuckIsCyclic | src/blackbase/project/dag.py:231-236 | when no case is ready the remaining ones are exactly those that reach a cycle |
| TopologicalOrder.TakeWave | src/blackbase/project/dag.py:237-243 | the ready cases move to the order and leave everybody's open dependencies |
| DagPlanner.CaseKeyNamesItsProducerIff | src/blackbase/project/dag.py:191-202 | for any names, a key case.artifact is attributed to its case exactly when the case has no dot, the artifact is not all dots, and the key does not read as a stage-qualified one |
| DagPlanner.StageKeyNamesItsProducerIff | src/blackbase/project/dag.py:191-202 | the same for stage.case.artifact, whose stage name may hold dots only when it starts with the case |
| DagPlanner.CaseNamedLikeItsStageIsMisread | src/blackbase/project/dag.py:191-202 | an artifact b.x of a case named like its stage is attributed to the case b |
| DagPlanner.FromStage | src/blackbase/project/dag.py:31-153 | planning succeeds exactly for well-formed acyclic stages; the plan's dependencies are the declared ones and then the inferred producers, without repeats and in that order, in plan order of the cases; every error is about something wrong with the stage |
| DagPlanner.PlanPutsProducersFirst | src/blackbase/project/dag.py:92-153 | in a plan every case comes after the cases it declares and the producers of the artifacts it consumes |
| DagPlanner.ExplicitDependencies | src/blackbase/project/dag.py:50-90 | declared dependencies are accepted exactly when they name other cases of the stage |
| DagPlanner.InferredDependencies | src/blackbase/project/dag.py:92-139 | the inferred dependencies are the cases producing consumed keys, and consuming one's own product is refused |
| DagPlanner.FirstsInOrder | src/blackbase/project/dag.py:79-145 | removing repeats keeps the order of first occurrences |
| ContextDetacher.Detacher.DetachValue | src/blackbase/context/value_isolation.py:28-69 | on any finite object graph a success is a copy of the tree that the input unfolds to, new in every array, reference and container and with the items of NumPy scalars handed on as they are; a failure names an obstacle that the walk visits; the active set is restored |
| ContextDetacher.Detacher.DetachContainer | src/blackbase/context/value_isolation.py:72-118 | the same for one container, which is refused exactly on its own path |
| ContextDetacher.Detacher.DetachContextValue | src/blackbase/context/value_isolation.py:17-25 | the public entry succeeds exactly when the walk visits no cycle, foreign object, object array or unhashable key; the copy then shares something mutable with the input exactly when the walk hands on an object that leads to something mutable |
| ContextDetacher.SharesWhatIsPassed | src/blackbase/context/value_isolation.py:28-118 | the second half of that, for any copy of any tree in any larger heap |
| ContextDetacher.StructuredScalarIsHandedOn | src/blackbase/context/value_isolation.py:31-32 | nothing obstructs a structured NumPy scalar with a list and a foreign object in its fields, and both are handed on |
| ContextDetacher.OnlyMutableItemsMatter | src/blackbase/context/value_isolation.py:31-32 | the list of a record within a record is shared, while an immutable item of a foreign class is none of the mutable things |
| ContextDetacher.ValuesNeedNoHash | src/blackbase/context/value_isolation.py:72-118 | a list obstructs a copy as a mapping key or set member, and not as a mapping value or item of a list or tuple |
| ContextDetacher.DenotedIsAcyclic | src/blackbase/context/value_isolation.py:72-76 | what unfolds to a finite tree reaches no cycle |
| ContextDetacher.DenotedIsUnobstructed | src/blackbase/context/value_isolation.py:28-118 | what unfolds to a tree with hashable keys is obstructed by nothing |
| SafeDecoder.Decoder.Decode | src/blackbase/context/redis_codec.py:359-456 | decoding succeeds exactly when the wire value has a meaning and both limits cover what is visited, returns that meaning and counts each visited value once |
| SafeDecoder.Decoder.DecodePairs | src/blackbase/context/redis_codec.py:415-434 | the restored mapping is the insertion of all pairs in order, and fails on a malformed pair or unhashable key |
| EncodedForms.EncodedIsWired | src/blackbase/context/redis_codec.py:220-356 | reading the tags of an encoded value gives its wire tree, also for mappings that look like tagged envelopes |
| CodecRoundTrip.WiredMeaning | src/blackbase/context/redis_codec.py:220-456 | a wired value means its normal form exactly when all of it survives: built-in collections, hashable distinct keys, and plain arrays with at least one dimension |
| CodecRoundTrip.InsertedHolds | src/blackbase/context/redis_codec.py:415-434 | a restored dictionary holds exactly the inserted keys, each with its last value |
| CodecRoundTrip.UniqueHolds | src/blackbase/context/redis_codec.py:437-455 | a restored set holds exactly the members it was built from |
| CodecLimits.EncodesIff | src/blackbase/context/redis_codec.py:220-356 | the encoder accepts exactly the supported values that are not too deep |
| CodecLimits.DecoderIsNoDeeper | src/blackbase/context/redis_codec.py:359-372 | the decoder never descends further than the encoder did |
| CodecLimits.DecoderCountsEachNode | src/blackbase/context/redis_codec.py:368-370 | the decoder visits one node for each value, a NumPy scalar counting as its item |
| CodecLimits.NodesWithinBytes | src/blackbase/context/redis_codec.py:137-147 | for any JSON value the visited nodes never exceed the bytes of its text |
| RedisValueCodec.Loads | src/blackbase/context/redis_codec.py:108-147 | loading succeeds exactly within the byte, depth and node limits on a matching envelope with a meaningful payload |
| RedisValueCodec.DumpedPayload | src/blackbase/context/redis_codec.py:66-106 | a dumped value opens to its wire tree, the decoder's depth check never fires on it, and it has fewer nodes than bytes |
| RedisValueCodec.LoadsInvertsDumpsIff | src/blackbase/context/redis_codec.py:66-147 | loading what was dumped returns the normal form exactly for values that survive and have no more nodes than the limit |
| RedisValueCodec.NodeCheckNeverFires | src/blackbase/context/redis_codec.py:199-204 | with no more bytes than nodes allowed no text reaches the node limit |
| RedisValueCodec.ByteLimitImpliesNodeLimit | src/blackbase/context/redis_codec.py:66-147 | with no more bytes than nodes allowed a dump loads as its normal form exactly when the value survives |
| RedisValueCodec.DumpsIsInjective | src/blackbase/context/redis_codec.py:66-106 | among values that survive, equal texts mean equal normal forms |
| RedisValueCodec.DumpsIff | src/blackbase/context/redis_codec.py:66-106 | a value is written exactly if it is supported, not too deep, and its text within the byte limit |
| RedisValueCodec.OtherScopesRefuse | src/blackbase/context/redis_codec.py:108-135 | a text of one scope is not loaded under another |
| RedisValueCodec.LoadedNamesItself | src/blackbase/context/redis_codec.py:108-135 | only a text within the byte limit that names this envelope, scope and serializer and has a payload is loaded |
| DecodedValues.LoadedIsDecoded | src/blackbase/context/redis_codec.py:108-487 | whatever the text, a loaded value consists of built-in classes, plain arrays whose bytes fit their shape, and distinct hashable keys and members |
| DecodedValues.LoadedIsStable | src/blackbase/context/redis_codec.py:66-147 | whatever the text, a loaded value that is dumped again loads as itself, within the node limit and without arrays of no dimension |
| RedisValueCodec.DefaultLimitsRefuseTheirOwnOutput | src/blackbase/context/redis_codec.py:36-64 | with the default limits every list of one to four million zeros is written and then refused |
| CodecLosses.ZeroDimensionalArrayGainsADimension | src/blackbase/context/redis_codec.py:282-292 | a zero-dimensional array has the text of the one-element array and loads as it |
| CodecLosses.StructuredArrayLosesItsFields | src/blackbase/context/redis_codec.py:282-292 | arrays of two structured types of one size have the same text and load as plain void arrays |
| CodecLosses.NamedTupleIsWrittenButRefused | src/blackbase/context/redis_codec.py:318-356 | a tuple of a subclass is written and not read back |
| CodecLosses.MappingKeyIsWrittenButRefused | src/blackbase/context/redis_codec.py:415-434 | a mapping used as a key is written and not read back |
| ArtifactRegistry.MergeGrows | src/blackbase/project/case_stages.py:556-572 | merging keeps every name and reference, also up to a conflict, and keeps references a view of the bindings |
| ArtifactRegistry.MergePublishes | src/blackbase/project/case_stages.py:556-572 | without a conflict every published entry is found under its qualified name, and its own name is taken |
| ArtifactRegistry.MergeAddsOnlyPublished | src/blackbase/project/case_stages.py:556-572 | nothing but published entries is added |
| ArtifactRegistry.MergeIgnoresReceipts | src/blackbase/project/case_stages.py:556-572 | publication receipts never influence the references or the conflict |
| ArtifactRegistry.MergeStopsIff | src/blackbase/project/case_stages.py:556-572 | merging stops exactly at the first published entry whose qualified name denotes another reference, and names it |
| ArtifactRegistry.MergeKeepsReceipts | src/blackbase/project/case_stages.py:556-572 | under its qualified name an entry is found with its own receipt unless a later entry took that name |
| CaseStages.BuildRequest | src/blackbase/project/case_stages.py:128-162 | a request is built exactly when all wanted artifacts are registered, with the resolved bindings, and otherwise names the first missing one |
| CaseStages.ResolvedInput | src/blackbase/project/case_stages.py:128-143 | an input is the artifact of its last binding, else the fixed one if there is one, else absent |
| CaseStages.FirstMissingIsFirst | src/blackbase/project/case_stages.py:135-143 | the artifact reported missing is the first wanted one that is not registered |
| CaseStages.SerialGrows | src/blackbase/project/case_stages.py:299-311 | a serial stage only adds to the registry |
| CaseStages.SerialRunsInTurn | src/blackbase/project/case_stages.py:299-311 | a serial stage is stopped exactly by a failure when it is fail-fast, and otherwise runs all calls unless an artifact is missing or conflicts |
| CaseStages.SerialResult | src/blackbase/project/case_stages.py:299-311 | each of its results is that of its call on the registry that the calls before it left |
| CaseStages.SerialMergesInOrder | src/blackbase/project/case_stages.py:299-311 | its registry is that of merging its successful results in order |
| CaseStages.SerialFailsIff | src/blackbase/project/case_stages.py:299-311 | it raises exactly at a call whose artifact is missing or whose successful result conflicts |
| CaseStages.MergeInOrderGrows | src/blackbase/project/case_stages.py:417-420 | merging parallel results only adds to the registry |
| CaseStages.SerialMatchesParallel | src/blackbase/project/case_stages.py:299-420 | when all calls succeed and consume only artifacts from before the stage, serial and parallel stages register the same references and stop at the same conflict |
| CaseStages.SiblingArtifactsNeedSerialStages | src/blackbase/project/case_stages.py:313-325 | a call consuming a sibling's artifact succeeds serially although it cannot be requested in parallel |
| CaseStageRunner.Runner.MergeArtifacts | src/blackbase/project/case_stages.py:556-572 | the merge loop updates both dictionaries as specified |
| CaseStageRunner.Runner.RunSerial | src/blackbase/project/case_stages.py:299-311 | the serial loop ends in the specified registry and result, or is interrupted after some calls |
| CaseStageRunner.Runner.CollectResults | src/blackbase/project/case_stages.py:344-416 | whatever the completion order, each child's result is its own unless a fail-fast failure came first, and the stage is stopped exactly then |
| CaseStageRunner.Runner.RunParallel | src/blackbase/project/case_stages.py:313-482 | nothing is registered before all children finished; then registry and result are a function of the results alone |
| CaseStageRunner.Runner.Run | src/blackbase/project/case_stages.py:284-297 | over any run of stages each result is that of its stage, serial or parallel as declared, on the registry that the stages before it left; the registry only grows, and the run ends early exactly on a fail-fast failure, an interruption or the error of the next stage |
| Digests.StreamIsInjective | src/blackbase/context/runtime_projection.py:25-29 | length framing makes different lists of parts hash different bytes |
| RuntimeProjections.IssueDigestIsInjective | src/blackbase/context/runtime_projection.py:69-117 | two issues have the same digest exactly when the bytes of all their unshortened fields and their causes agree; a lone surrogate has the byte of a question mark |
| RuntimeProjections.IssuesDigestCoversAll | src/blackbase/context/runtime_projection.py:143-147 | two lists of issues, sampled or not, have the same running digest exactly when they agree so one by one |
| RuntimeProjections.IssueAccumulator.Add | src/blackbase/context/runtime_projection.py:163-172 | the accumulator holds count, first samples and running digest of exactly the issues added |
| RuntimeProjections.OneIssuePerUnhealthyComponent | src/blackbase/context/runtime_projection.py:580-655 | there is one issue per degraded, failed or invalid component |
| ProjectionAggregation.FirstWriterWins | src/blackbase/context/runtime_projection.py:562-661 | a field keeps the value and writer of its first contributor |
| ProjectionAggregation.MergedAreFirst | src/blackbase/context/runtime_projection.py:562-661 | a key is in the result exactly if somebody offers it with a value; a given field has its last given value and its declared source, any other the first value of the first component that offers it, with the source declared there or that component as writer |
| ProjectionAggregation.CountsAreOutcomes | src/blackbase/context/runtime_projection.py:580-661 | each count is the number of components whose projector had that outcome |
| ProjectionAggregation.IssuesTell | src/blackbase/context/runtime_projection.py:580-655 | the issues are those of the unhealthy components in order, each with its component, reason, error and cause |
| ProjectionAggregation.ValidationPassesIff | src/blackbase/context/runtime_projection.py:225-392 | the envelope's validation accepts what aggregation feeds it, for any number of components within the protocol limit |
| ProjectionAggregation.Aggregate | src/blackbase/context/runtime_projection.py:526-682 | aggregation succeeds exactly within the protocol limit and then describes every component: counts, status, first samples, digest of all issues, and the fields as just stated |
| ProjectionAggregation.OkIffNoBadLeaf | src/blackbase/context/runtime_projection.py:662-668 | a tree of aggregations is ok exactly when no leaf below failed or was invalid |
| ProjectionAggregation.ErrorIffNothingGood | src/blackbase/context/runtime_projection.py:662-668 | it reports an error exactly when some leaf is bad and nothing below is good |
| ProjectionEvidence.AuditDigestIsInjective | src/blackbase/context/runtime_projection.py:365-373 | an audit digest determines status, counts, number of issues and their digest |
| ProjectionEvidence.AuditDigestFixesTheTree | src/blackbase/context/runtime_projection.py:605-655 | equal audit digests mean the same statuses, counts, bytes of issues and causes at every nested level |
| ProjectionAudit.ShownTextIsBounded | src/blackbase/context/runtime_projection.py:32-46 | a shown text stays within its byte limit, is cut exactly when too long, and only at a character |
| ProjectionAudit.ConstructIsStable | src/blackbase/context/runtime_projection.py:225-392 | building an envelope again from the fields of a validated one gives the same envelope |
| ProjectionAudit.ConstructedIffConsistent | src/blackbase/context/runtime_projection.py:225-392 | the constructor makes exactly the envelopes whose sources, counts, status, samples, flags and digests agree |
| ProjectionAudit.ConstructSucceedsIff | src/blackbase/context/runtime_projection.py:225-392 | with or without issue count and digest, the constructor accepts exactly consistent arguments, wants a digest exactly when issues were omitted, and keeps what it was given |
| ProjectionAudit.BaseFits | src/blackbase/context/runtime_projection.py:414-437 | the audit of any validated envelope fits its budget without samples |
| ProjectionAudit.AsAudit | src/blackbase/context/runtime_projection.py:404-466 | the audit of any validated envelope shows the longest prefix of samples that fits and nothing has to be dropped afterwards; it raises exactly when the loop meets a sample that shows a lone surrogate |
| ProjectionText.AuditSize | src/blackbase/context/runtime_projection.py:403-437 | the size that the audit works with is that of its JSON text, member by member, and fits exactly if the text has at most 4096 bytes |
| ProjectionText.SampleSize | src/blackbase/context/runtime_projection.py:134-149 | the size of a sample is that of its text, in which an empty error type or message and an absent cause are left out |
| ProjectionText.SampleEncodesIff | src/blackbase/context/runtime_projection.py:403-412 | the text of a sample has a UTF-8 form exactly if none of the texts that it shows whole has a lone surrogate |
| BatchDispositions.Construct | src/blackbase/contracts/batch.py:26-42 | a disposition is accepted exactly when its rows are strictly increasing and within the proposal |
| BatchDispositions.PrefixAccepts | src/blackbase/contracts/batch.py:59-84 | a prefix accepts exactly the rows below its count, for counts within the proposal, and its errors say what is wrong |
| BatchDispositions.RejectedIsComplement | src/blackbase/contracts/batch.py:48-53 | the rejected rows are exactly the others, in order |
| BatchDispositions.CountsAddUp | src/blackbase/contracts/batch.py:44-53 | accepted and rejected rows together are all proposed rows |
| BatchDispositions.ForRangeSucceedsIff | src/blackbase/contracts/batch.py:86-110 | restricting succeeds exactly for ranges inside the proposal |
| BatchDispositions.ForRangeCarries | src/blackbase/contracts/batch.py:86-110 | a restriction accepts exactly the accepted rows of its range, counted from its start, and keeps reason and reservation |
| BatchDispositions.WindowIsSlice | src/blackbase/contracts/batch.py:96-100 | the restriction is the slice of accepted rows between two ranks, counted from its start |
| BatchDispositions.RangesReassemble | src/blackbase/contracts/batch.py:86-110 | restricting along any cuts and reassembling gives all accepted rows back |
| BatchDispositions.ComposeSucceedsIff | src/blackbase/contracts/batch.py:112-154 | composing fails only on a cardinality mismatch, never in the constructor |
| BatchDispositions.ComposeCarries | src/blackbase/contracts/batch.py:112-154 | a composition accepts the rows that the later decision picks, with the given reason or else the later one, and the later reservation if there is one |
| BatchDispositions.ComposeIsAssociative | src/blackbase/contracts/batch.py:112-154 | composition is associative in counts, rows, reason and reservation, and both groupings are defined together |
| BatchDispositions.FullPrefixIsUnit | src/blackbase/contracts/batch.py:59-84 | accepting everything before or after changes neither counts nor rows |
| BatchDispositions.RejectedByCompositionIff | src/blackbase/contracts/batch.py:112-154 | a composition rejects exactly what the first decision rejected and what the later one rejected of the rest |
| BatchDispositions.RestrictionDistributes | src/blackbase/contracts/batch.py:86-154 | restricting a composition equals composing the restrictions, the second one to the matching ranks |

## Left out

- Python's equality across types (`True == 1 == 1.0`, `-0.0 == 0.0`) and NaN keys of the codec: values are compared as trees, so keys that Python merges are kept apart by the source's own dictionaries before they reach the model.
- Text formats: JSON, base64 and UTF-8 text is symbolic, with exact byte counts; SHA-256 is a symbol; a plain string that happens to be base64 is not read as bytes; integers beyond Python's digit limit are not refused.
- Coercions of arguments and malformed envelopes (`int()`, `str()`, `strip()`, lower-casing) and message texts.
- Journal: `list_records`, `list_unresolved`, the field-by-field `as_dict`/`from_dict` pairs; the SQLite backend, which runs the same updater on JSON text in one transaction; lone surrogates, which JSON text cannot be encoded with; envelopes and receipts reach the model through their constructors.
- File snapshots: one writer at a time, because the claim file is not a sound mutex; expiry, pins, deletion, legacy payloads, claim takeover and keys sharing a stem; the `meta` mapping of the caller.
- In-memory snapshots: copying of the data itself, which is the detacher's part.
- Parallel slots: the router and serial modes, merge strategies, elapsed time, run tokens and the derived counts of the report; a pool without deadline is assumed to finish some handle after finitely many polls; the values in a branch's context are copied by the rule of the input, which alone is modelled.
- Copies of the input: an object's own `copy` is taken to copy its outer layer; one that returns the object itself behaves as no copy at all.
- Write fence: the store behind a handle, and what its write does, is not modelled; the handles of executors, pools and plugins, which are passed on unfenced.
- Planner: type checks of the stage mapping, request metadata and `as_dict`; names are non-empty strings.
- Detacher: keys that become equal only by copying; the texts of paths in errors; every mapping counts as mutable, also a read-only view.
- Detacher and codec: Python's recursion limit, at which very deep acyclic values fail.
- Codec: pickle serializers and HMAC; the encoder's cycle check, since values are trees there (cycles are the detacher's part); validation inside the three protocol classes, whose payload is any mapping; complex numbers with integer parts, which the encoder never writes; scalars of a subclass are values of their base class; NumPy scalars whose item is a NumPy scalar again, which end at the depth limit.
- Codec decoder: tags are read by `SafeCodec.Parse` before the limits are applied, so which of several errors is reported may differ; success and value do not.
- Case stages: lineage, heartbeat, control cleanup and overdue marks; a child invocation is a function of its request until its stage is stopped, and `SerialMatchesParallel` assumes that it depends on inputs by reference.
- Projections: source names of fields are not shortened, and NumPy integers as counts are not modelled.
- Batch dispositions: `metadata` and audit entries.
- Resources, leases and cancellation stores, command line, catalog, plugins, profiling and logging: plumbing or separate protocols.
