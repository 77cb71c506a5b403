# Thunderbolt DB: verified models of the commit path and its neighbours

A Dafny model of the parts of the Thunderbolt DB engine where one wrong step loses, duplicates or
misreports data, with proofs about every input, every run or every interleaving.

- **Commit, durability and publication.** `Publication.dfy` is the join that publishes only the
  contiguous prefix of reported commit indices. `Replication.dfy` is the local log and the WAL buffer.
  `CommitSpec.dfy` says what the serialized and the batch commit path do to the engine, with every
  clean and indeterminate failure; `CommitRuns.dfy` proves safety, exactly-once and clean-abort
  theorems about all runs; `CommitOutcomes.dfy` says outright which calls commit, what they leave
  behind, what every failure blames, and that nothing unasked is ever logged; `CommitEngine.dfy` executes both paths step by step on mutable objects and
  proves that they are the specified transitions and that every state between two steps is safe.
- **Quiescence gate.** `Quiescence.dfy` runs claimants and off-lock durability tails in every
  interleaving of atomic steps: what can never happen, and what every thread can always do.
- **CHECK lowering.** `Decimal.dfy`, `DecimalOrder.dfy` and `CheckViolation.dfy`: checked i128 decimal
  arithmetic, the decimal comparison, and the compiler from `column OP literal` to the expression that
  selects violating rows, proved to preserve three-valued meaning (section 11.9 of ISO/IEC 9075-2).
  `CheckEvaluation.dfy` adds how a check is published and evaluated: operand resolution, the literal
  guard, ADD CHECK's scan on the host and the validation of written rows on the device, proved to agree.
- **Device generations.** `Residency.dfy` applies a durable batch to versioned device copies, with insert
  coalescing, per-entry maintenance, repair rebuilds and retirement. `KeyedReplay.dfy` replays binary row
  records.
- **Catalog.** `Columns.dfy`, `Roles.dfy` and `Sequences.dfy`: column, role, ACL and sequence statements
  that keep several maps in agreement.
- **Algorithms.** `FlatAssembly.dfy`, `Needles.dfy`, `Batcher.dfy`.

State that the code updates in place is a class whose methods are proved against functions on values;
whole-run theorems are about those functions. I/O errors, device declines, leadership, clocks and the
outcome of calls into code outside the model are parameters, so each theorem covers all their values.
Request digests are opaque values and a flush is all-or-nothing, as in the code.

Where the code and a comment or an expected property disagree, the model follows the code and a lemma
gives the exact condition:

- Decimal comparison is not a total order on every decimal: `CompareExactIff`,
  `CompareIsNotTransitive`. The comment of the code claims it for what a column can store, and there it
  is one: `CompareIsTotalOrder`. The last-resort branch, which the comment calls unreachable for stored
  values, is taken for some of them (`StoredValuesReachTheLastResort`) but stays exact. As functions, the CHECK compiler and the host test
  part on the blurred pairs (`DeviceNegatesHostIff`); the engine never evaluates one, because the literal
  guard refuses it first (`EvaluatorsAgree`, `GuardIsNeeded`).
- Installing a publication snapshot at `u64::MAX` leaves the join and the committed sequence apart:
  `InstallPublicationSnapshot`, `SnapshotThenSealCoherentIff`.
- A keyed update record that matches nothing retires its table's only device copy when it shares a
  batch with another entry: `ApplyBatch`, `UnmatchedKeyedUpdateRetiresItsTable`. On its own it does not: `ApplySingle`.
- Renaming a role to `public` replaces what PUBLIC had: `RenameBackRestoresIff`,
  `RenameToPublicOverwrites`.
- Private sequence publications cannot exchange names: `PublicationsAcceptedIff`, `SwapIsRefused`.
- Replaying a historical rename or drop of a sequence leaves its defaults naming nothing:
  `HistoricalRenameKeepsDefaultsIff`, `HistoricalDropKeepsDefaultsIff`, `HistoricalReplayStrandsADefault`.
- Needles repeat above 2^32 rows: `PeriodDistinctIff`, `LargeTableRepeatsNeedles`.

`dafny verify dfyconfig.toml` checks the project.

## Model

| member | source | states |
|---|---|---|
| Publication.VisibleIsLongestReportedPrefix | crates/engine/src/engine_commit_coordinator.rs:180-224 | after any history of reports and installs the boundary is the end of the longest contiguous run of reported indices above the installed base, whatever the order and duplication |
| Publication.JoinTracksReports | crates/engine/src/engine_commit_coordinator.rs:180-224 | the stranded set is exactly the accepted indices at or above the boundary: a report cut short by index 0 or u64::MAX loses none of its earlier indices |
| Publication.VisibilityIsMonotone | crates/engine/src/engine_commit_coordinator.rs:200-223 | no sequence of further reports moves visibility back |
| Publication.ReportOrderIsIrrelevant | crates/engine/src/engine_commit_coordinator.rs:180-224 | two histories that reported the same indices since the last install agree on the join |
| Publication.MissingIsRepresentable | crates/engine/src/engine_commit_coordinator.rs:200-208 | stepping the boundary never leaves u64, so the visible-next overflow error cannot occur |
| Publication.PublishKeepsWellFormed | crates/engine/src/engine_commit_coordinator.rs:43-50 | stranded indices stay inside the publishable domain and at or above the boundary |
| Publication.ReportAnswer | crates/engine/src/engine_commit_coordinator.rs:180-224 | a report is answered with the new boundary if and only if no index is 0 or u64::MAX; otherwise it names the first such index, moves nothing and keeps the indices before it |
| Publication.CommitPublicationCoordinator.InsertReported | crates/engine/src/engine_commit_coordinator.rs:190-199 | the insertion loop adds exactly the accepted prefix and names the first index outside the domain |
| Publication.CommitPublicationCoordinator.StepOverReady | crates/engine/src/engine_commit_coordinator.rs:200-208 | the drain loop ends at the first missing index and keeps the rest stranded |
| Publication.CommitPublicationCoordinator.PublishReadyIndices | crates/engine/src/engine_commit_coordinator.rs:180-224 | one report takes the join to its specification, drops a sealed generation exactly when the boundary moves, and every intermediate store a reader can observe is coherent |
| Publication.CommitPublicationCoordinator.InstallRecoveredSealedGeneration | crates/engine/src/engine_commit_coordinator.rs:229-252 | installs only a generation that covers exactly the published boundary, generation before table OID, with every single store coherent |
| Publication.CommitPublicationCoordinator.InstallPublicationSnapshot | crates/engine/src/engine_commit_coordinator.rs:278-293 | replaces the join and the committed sequence; the result is consistent if and only if the installed index is below u64::MAX |
| Publication.SnapshotThenSealCoherentIff | crates/engine/src/engine_commit_coordinator.rs:229-293 | a sealed generation installed right after a snapshot covers the committed sequence if and only if the snapshot index is below u64::MAX |
| Replication.LocalReplicator.Propose | crates/replication/src/local.rs:383-410 | appends one contiguous entry and commits it, or refuses off-leader and at the end of the sequence space |
| Replication.LocalReplicator.RollbackUnappliedFrom | crates/replication/src/local.rs:293-306 | keeps exactly the entries below the bound and moves commit and next index to their end |
| Replication.WithdrawUndoesProposals | crates/replication/src/local.rs:293-306 | rolling back from the first proposed index restores the log that was there before, for any number of proposals |
| Replication.LocalReplicator.DrainCommittedFrom | crates/replication/src/local.rs:121-132 | for every start the slice arithmetic yields exactly the retained committed entries above it, in order |
| Replication.LocalReplicator.MarkApplied | crates/replication/src/local.rs:146-158 | the applied index only grows and never passes the commit index |
| Replication.LocalReplicator.CompactAppliedPrefix | crates/replication/src/local.rs:162-166 | drops the applied prefix and leaves the unapplied entries |
| Replication.WalBuffer.FlushAll | crates/wal/src/buffer.rs:1285-1365 | one flush makes the whole tail durable, or the watermark stays |
| Replication.WalBuffer.Truncate | crates/wal/src/buffer.rs:1174-1275 | cuts the buffer back to a given length, and the durable watermark with it when the cut lies below |
| CommitSpec.AdmissionMeaning | crates/engine/src/engine_commit.rs:646-713 | batch admission keeps one item per new identity, only items of the batch, and accounts for every item as already committed and visible or carried by an admitted one |
| CommitSpec.AdmissionReleasesOnlyCommitted | crates/engine/src/engine_commit.rs:652-657 | the only pending claims that can disappear during admission belong to transactions already committed and visible |
| CommitRuns.ReachableStatesAreSafe | crates/engine/src/engine_commit.rs:499-570 | in every reachable state of any mix of serialized and batched commits, faults, role changes and compactions, every visible index is durable, has its terminal status and is applied; unless wedged, log, WAL, applied index and visible boundary end at one index and the applied payloads are the WAL's |
| CommitRuns.CommitOneKeepsInv | crates/engine/src/engine_commit.rs:431-571 | the serialized path keeps that invariant for every outcome and fault |
| CommitRuns.CommitBatchKeepsInv | crates/engine/src/engine_commit.rs:584-838 | so does the batch path |
| CommitRuns.RunsOnlyExtend | crates/engine/src/engine_commit.rs:431-838 | over any run durable records, terminal statuses and visibility only grow |
| CommitRuns.TokenMeansCommitted | crates/engine/src/engine_commit.rs:466-571 | a returned token names the request's own durable record, its installed status, and a visible index; for a new request the logged and the applied bytes are its own |
| CommitRuns.AdmittedTakeConsecutiveIndices | crates/engine/src/engine_commit.rs:734-824 | in an accepted batch the item admitted at offset k is committed at first index plus k, with its own bytes logged and applied there |
| CommitRuns.AcceptedBatchMeansCommitted | crates/engine/src/engine_commit.rs:646-837 | an accepted batch commits every one of its items, duplicates and earlier retries included |
| CommitRuns.CommittedIsForever | crates/engine/src/engine_commit.rs:466-498 | a committed request keeps its single record at the same visible index, and its bytes in log and state machine, through any further calls and faults |
| CommitRuns.RetryChangesNothing | crates/engine/src/engine_commit.rs:466-468 | presenting a claimed identity again adds nothing: the same request gets its token, another gets an error |
| CommitRuns.ExactlyOnce | crates/engine/src/engine_commit.rs:466-498 | over any run each identity has at most one WAL record, and its terminal status is that record's index |
| CommitRuns.ConflictingBatchAddsNothing | crates/engine/src/engine_commit.rs:646-713 | a batch that reuses an identity for a different request, against a terminal status or inside itself, fails and adds no record and no status |
| CommitOutcomes.ForeignClaimAddsNothing | crates/engine/src/engine_commit.rs:671-681 | a batch with an identity that is pending for another request fails and adds no record and no status |
| CommitOutcomes.PendingClaimAddsNothing | crates/engine/src/engine_commit.rs:486-493 | on the serialized path any pending claim on the identity, whoever holds it, changes nothing |
| CommitOutcomes.CommitOneOutcome | crates/engine/src/engine_commit.rs:431-571 | a request commits if and only if nothing stops it, and then log, WAL, state machine, statuses, timestamps and boundaries each gain exactly it; a stop before durability leaves no trace, one after it leaves the durable record on a wedged engine |
| CommitOutcomes.FailureIsBlamed | crates/engine/src/engine_commit.rs:431-571 | every error of the serialized path has its own cause in the state or the environment |
| CommitOutcomes.AdmissionOutcome | crates/engine/src/engine_commit.rs:646-713 | a batch is admitted if and only if every item is an exact retry of visible work or an identity nobody else holds; it then admits exactly the first occurrence of each new identity and releases exactly the claims of its retries |
| CommitOutcomes.AdmissionBlamesFirst | crates/engine/src/engine_commit.rs:646-713 | the error of a batch that is not admitted is about its first unacceptable item |
| CommitOutcomes.CommitBatchOutcome | crates/engine/src/engine_commit.rs:584-838 | a batch succeeds if and only if it is empty or acceptable and nothing stops its new requests, and then exactly those are committed, in order, with their bytes and released claims; otherwise the state is as before but for released claims, or durable and wedged |
| CommitOutcomes.BatchFailureIsBlamed | crates/engine/src/engine_commit.rs:605-837 | every error of the batch path has its cause, and a requeue is asked for exactly on the transient ones |
| CommitOutcomes.EveryRecordWasRequested | crates/engine/src/engine_commit.rs:738-774 | over any run every new WAL record carries the identity, bytes and digest of a request some call presented |
| CommitRuns.FailedBatchIsCleanOrWedged | crates/engine/src/engine_commit.rs:605-837 | a requeueable failure leaves log, WAL, statuses, timestamps and visibility exactly as they were; any failure after the flush wedges the engine and is not requeueable |
| CommitRuns.BatchTimestampsIncrease | crates/engine/src/engine_commit.rs:798-806 | timestamps assigned inside one batch strictly increase until they saturate |
| CommitRuns.BatchTimestampsAreTight | crates/engine/src/engine_commit.rs:798-806 | each stamp is the wall clock or one above the highest so far, the last is the new maximum, and no other stamp changes |
| CommitEngine.Engine.AbortPreparation | crates/engine/src/engine_commit.rs:751-784 | withdrawing a prepared group returns log and WAL to what they were before it |
| CommitEngine.Engine.PrepareItem | crates/engine/src/engine_commit.rs:738-774 | proposes and records one item or undoes the whole group |
| CommitEngine.Engine.Prepare | crates/engine/src/engine_commit.rs:734-784 | either every item is proposed, recorded and flushed, or nothing remains of any of them and the error names the first failing step |
| CommitEngine.Engine.RecordOutcome | crates/engine/src/lib.rs:1163-1224 | installs a terminal claim once and refuses a second one |
| CommitEngine.Engine.RecordOutcomes | crates/engine/src/engine_commit.rs:800-823 | statuses at first index plus offset with in-batch timestamps, never meeting an occupied identity |
| CommitEngine.Engine.RequirePublicationCoverage | crates/engine/src/engine_commit_coordinator.rs:257-269 | wedges exactly when the terminal index lies outside the published prefix |
| CommitEngine.Engine.ApplyEntries | crates/engine/src/engine_commit.rs:1078-1433 | feeds the drained entries in order and stops at the first failing one |
| CommitEngine.Engine.ApplyAndPublishCommitted | crates/engine/src/engine_commit.rs:990-1014 | drains, applies and reports the committed entries; on a serialized claimant the report is accepted and covered |
| CommitEngine.Engine.CommitMutationAt | crates/engine/src/engine_commit.rs:431-571 | the serialized path, step by step on log, WAL, statuses and join, is the specified transition, and the state after every single write is safe |
| CommitEngine.Engine.AdmitAll | crates/engine/src/engine_commit.rs:646-713 | the admission loop computes the specified admission |
| CommitEngine.Engine.CommitMutationBatch | crates/engine/src/engine_commit.rs:584-838 | the batch path is the specified transition, with every intermediate state safe |
| Quiescence.GateAdmitsOnlyWhenQuiescent | crates/engine/src/engine_commit_coordinator.rs:96-124 | in every interleaving a claimant past the gate holds the commit lock, no other thread is anywhere in the protocol, and everything issued is visible |
| Quiescence.GateAdmitsIff | crates/engine/src/engine_commit_coordinator.rs:96-124 | on a free lock a claimant gets in if and only if no tail is open and the engine is not wedged, and otherwise leaves everything as it was |
| Quiescence.QuiescentGateNeverTurnsAway | crates/engine/src/engine_commit_coordinator.rs:96-124 | a claimant that locks a quiescent engine gets in, however other threads are scheduled between its reads |
| Quiescence.ClaimantOutcomes | crates/engine/src/engine_commit_coordinator.rs:254-269 | a claimant inside can commit any number of indices, which publishes exactly them, or withdraw without trace, or fail and wedge |
| Quiescence.TailOpens | crates/engine/src/engine_commit_coordinator.rs:126-133 | on a free lock a strategy can leave with an open, counted tail that owns exactly its indices, or withdraw without trace |
| Quiescence.TailFinishes | crates/engine/src/engine_commit_coordinator.rs:135-148 | an open tail can report and finish whatever else goes on: exactly its indices become visible or wait, and its counter closes; giving up wedges and publishes nothing |
| Quiescence.WedgedAdmitsNobody | crates/engine/src/engine_commit_coordinator.rs:119-123 | a wedge is final and lets no claimant in |
| Quiescence.EverythingCanComeToRest | crates/engine/src/engine_commit_coordinator.rs:96-175 | from every state all threads can leave without a wedge, and then everything issued is visible: no index is stranded for good |
| Quiescence.CountersEqualIffQuiescent | crates/engine/src/engine_commit_coordinator.rs:107-121 | both counter pairs are equal if and only if no tail is open |
| Quiescence.CoverageCheckNeverFires | crates/engine/src/engine_commit_coordinator.rs:254-269 | a gated claimant's terminal index is always inside the prefix its report returned |
| Quiescence.UnreportedStaysInvisible | crates/engine/src/engine_commit_coordinator.rs:130-148 | an issued index has one owner and is invisible until that owner reports it |
| Quiescence.NothingStrandedAtRest | crates/engine/src/engine_commit_coordinator.rs:139-148 | when every thread is outside and nobody wedged, exactly the issued indices are visible |
| Quiescence.EqualCountersMeanQuiescent | crates/engine/src/engine_commit_coordinator.rs:107-121 | counters loaded one at a time under the lock and found equal mean no unfinished tail |
| Quiescence.CoveredIffNoGapBelow | crates/engine/src/engine_commit_coordinator.rs:257-269 | the coverage check passes if and only if every lower index is published or already waiting |
| Quiescence.StepKeepsInv | crates/engine/src/engine_commit_coordinator.rs:96-175 | every atomic step of every thread keeps the ownership, counter and boundary invariant |
| Decimal.PowerOfTen | crates/engine/src/check_violation_expr.rs:509-515 | the checked loop returns 10^n exactly when it fits i128 |
| Decimal.NumericExceedsPrecision | crates/engine/src/check_violation_expr.rs:178-187 | the precision test is exact for every precision although its loop gives up on overflow |
| Decimal.FloorCeilIsExact | crates/engine/src/check_violation_expr.rs:457-507 | for every mantissa and scales the pair is the exact floor and ceiling, with an overflow sentinel only when the true value lies outside i128 |
| DecimalOrder.CompareExactIff | crates/sql/src/decimal.rs:114-139 | comparison is the exact order of the rationals if and only if the narrower operand is not blurred by the wider; otherwise the answer is Equal |
| DecimalOrder.CompareIsTotalOrder | crates/sql/src/decimal.rs:102-139 | on decimals of up to 38 digits, at any scales, the comparison is a total order: reversing, equality of the rationals, transitivity |
| DecimalOrder.CompareExactWithin38Digits | crates/sql/src/decimal.rs:110-139 | on decimals of up to 38 digits the comparison is the exact order of the rationals, also where the last resort is taken |
| DecimalOrder.ShortIsNeverBlurred | crates/sql/src/decimal.rs:131-138 | a wide operand of up to 38 digits blurs no narrow one |
| DecimalOrder.CompareIsNotTransitive | crates/sql/src/decimal.rs:102-113 | beyond 38 digits it is not a total order: 0.2 compares equal to both 0.16 and 0.17 at scale 39, which differ |
| DecimalOrder.StoredValuesReachTheLastResort | crates/sql/src/decimal.rs:110-121 | aligning ten with a decimal of scale 38 overflows, so stored values do reach the last resort |
| DecimalOrder.LastResorts | crates/sql/src/decimal.rs:51-100 | integer part and downward rescale agree with exact division also where the power of ten overflows |
| CheckViolation.CompiledSelectsViolations | crates/engine/src/check_violation_expr.rs:16-117 | for every column type, operator, literal and storable row value the compiled expression selects the row exactly when the exact comparison is FALSE, so never on NULL, and the compiler declines in exactly the listed cases |
| CheckViolation.EmittedLiteralsStayInDomain | crates/engine/src/check_violation_expr.rs:309-404 | the result is a constant mask or one comparison with a literal of the column's own domain |
| CheckViolation.DeviceNegatesHostIff | crates/engine/src/check_violation_expr.rs:148-176 | as functions, without the literal guard: device selection is the negation of the host test if and only if the pair is not blurred or the operator cannot tell its true order from equality |
| CheckViolation.ThresholdMeaning | crates/engine/src/check_violation_expr.rs:309-325 | the violation threshold is passed exactly by the lattice points on which the check fails |
| CheckViolation.FoldedMeaning | crates/engine/src/check_violation_expr.rs:341-364 | a folded comparison is constant over the whole domain, and one that is not folded has its threshold inside it |
| CheckViolation.LatticeComparisonMeaning | crates/engine/src/check_violation_expr.rs:330-380 | folding and emission preserve the comparison on every stored value and select no NULL |
| CheckViolation.IntegerColumnMeaning | crates/engine/src/check_violation_expr.rs:189-200 | integer columns against integer and decimal literals of any scale |
| CheckViolation.NumericColumnMeaning | crates/engine/src/check_violation_expr.rs:202-219 | numeric columns of any scale and precision up to 38 |
| CheckViolation.TemporalColumnMeaning | crates/engine/src/check_violation_expr.rs:221-266 | date against timestamp both ways, with Euclidean days |
| CheckViolation.ComparableOrders | crates/engine/src/rel_exec_helpers.rs:611-729 | the host comparison of every admissible pair is the exact order if and only if the pair is not blurred, and Equal otherwise |
| CheckEvaluation.EvaluatorsAgree | crates/engine/src/check_violation_expr.rs:122-176 | past the literal guard, with declarable types, device selection is the negation of the host test for every operator, literal and storable row value, without exception |
| CheckEvaluation.AddedCheckIsEnforcedAlike | crates/engine/src/engine_ddl_table.rs:1081-1149 | a check whose operand resolved compiles exactly when it is not LIKE, and the device then selects exactly the rows ADD CHECK's scan rejects |
| CheckEvaluation.PreflightAddCheck | crates/engine/src/engine_ddl_table.rs:1077-1153 | ADD CHECK refuses a missing column, a literal there is an objection to, a number with too many digits, and a table with a row on which the comparison with the literal as written is FALSE; otherwise it publishes a check that compares like that literal, an uncast one as what it reads as |
| CheckEvaluation.ValidateOnDevice | crates/engine/src/engine_dml_prepare.rs:1340-1408 | written rows pass if and only if every literal is usable, every check can be evaluated and the exact comparison is FALSE on no row; a refusal names the first check at fault, bad literals before anything else |
| CheckEvaluation.ValidateLiteral | crates/engine/src/check_violation_expr.rs:122-142 | the guard refuses exactly the literals with more digits than their input type, and metadata that disagrees |
| CheckEvaluation.UsableIsNeverBlurred | crates/engine/src/check_violation_expr.rs:122-142 | no literal the guard lets through can blur with a value the column stores |
| CheckEvaluation.HostMeansNotFalse | crates/engine/src/check_violation_expr.rs:148-176 | past the guard the host test holds exactly when the comparison is TRUE or UNKNOWN, LIKE included |
| CheckEvaluation.GuardIsNeeded | crates/engine/src/check_violation_expr.rs:119-142 | 0.2 against a 39-digit 0.16: the host accepts, the device selects the row, and the guard refuses the literal |
| CheckEvaluation.ResolveMeaning | crates/engine/src/rel_exec_helpers.rs:136-203 | a literal resolves if and only if there is no objection to it, with the objection as error; what it resolves to compares like the literal as written (an uncast text as what it reads as) and carries the type that guards it |
| CheckEvaluation.StandInIsAdmissible | crates/engine/src/rel_exec_helpers.rs:136-203 | such an operand is admissible to the compiler, and the guard refuses it if and only if the written number has too many digits |
| CheckEvaluation.SameOperandSameTruth | crates/engine/src/rel_exec_helpers.rs:308-340 | promoting an integer literal to a decimal changes no comparison |
| CheckEvaluation.AnyRowViolates | crates/engine/src/engine_ddl_table.rs:1134-1151 | the scan with the host test finds a row if and only if the exact comparison is FALSE on some row |
| CheckViolation.CompatibleIffOrdered | crates/engine/src/check_violation_expr.rs:291-305 | two types may meet in a CHECK if and only if values of theirs have an order |
| FlatAssembly.AssembleBoxed | crates/engine/examples/result_materialization_probe.rs:49-62 | the boxed loop groups by needle and stable-sorts each group |
| FlatAssembly.AssembleFlat | crates/engine/examples/result_materialization_probe.rs:72-99 | cut by its ranges the flat result is the boxed one, needle for needle and row for row, ties included |
| FlatAssembly.CountNeedles | crates/engine/examples/result_materialization_probe.rs:72-75 | counts every needle without leaving u32 |
| FlatAssembly.BuildRanges | crates/engine/examples/result_materialization_probe.rs:76-82 | prefix sums give each needle its start and count and sum to the row total |
| FlatAssembly.Scatter | crates/engine/examples/result_materialization_probe.rs:83-89 | cursor scatter leaves each needle's rows in its own range in arrival order |
| FlatAssembly.SortRanges | crates/engine/examples/result_materialization_probe.rs:90-95 | sorting each range in place leaves the other ranges alone |
| FlatAssembly.Flatten | crates/engine/examples/result_materialization_probe.rs:96-99 | row-major copy of the rows in slot order |
| FlatAssembly.StableSortIsStable | crates/engine/examples/result_materialization_probe.rs:58-59 | sorted by key, every key keeping its payloads in arrival order |
| FlatAssembly.StableSortUnique | crates/engine/examples/result_materialization_probe.rs:90-95 | there is only one stable sort, so the result does not depend on the library's algorithm |
| Residency.MaintainedShown | crates/engine/src/engine_transaction_commit.rs:567-587 | tombstone-then-append shows a change from its own index on and nothing of it at earlier boundaries |
| Residency.ScopeOf | crates/engine/src/engine_commit_residency.rs:162-227 | the batch scope is the union of the entries' scopes unless one of them is global |
| Residency.ScopeMeaning | crates/engine/src/engine_commit_residency.rs:162-227 | which tables each kind of entry puts in scope |
| Residency.InsertOnlyTables | crates/engine/src/engine_commit_residency.rs:313-360 | exactly the tables a batch of plain row statements only inserts into |
| Residency.DeviceStore.EnsureGeneration | crates/engine/src/engine_dml_prepare/unique_conflict.rs:43-97 | gives a statement's target an exact device generation |
| Residency.DeviceStore.PublishChange | crates/engine/src/engine_commit.rs:1341-1375 | publishes one table's change at its own index and makes the device its authority |
| Residency.ResolveYields | crates/engine/src/engine_write_apply.rs:190-275 | every row entry yields a mutation, also when it matches nothing, except a keyed update record without a match |
| Residency.DeviceStore.ApplyRow | crates/engine/src/engine_write_apply.rs:190-275 | a statement resolved against the device rows has the effect of the statement on the logical rows; it is accepted if and only if its table exists, its key names at most one row and the device does not decline, and it maintains its table unless it is an unmatched keyed update |
| Residency.DeviceStore.ApplyTransaction | crates/engine/src/engine_transaction_commit.rs:407-612 | a transaction record's final images, all tables at once |
| Residency.DeviceStore.ApplyRepair | crates/engine/src/engine_commit.rs:1096-1134 | rebuilding the host rows from the device at the preceding boundary gives DDL the logical rows, and every generation is rebuilt exact |
| Residency.DeviceStore.AppendCoalesced | crates/engine/src/engine_commit.rs:1804-1830 | one stamped append per coalesced table completes every boundary inside the batch |
| Residency.DeviceStore.InvalidateExcept | crates/engine/src/engine_commit_residency.rs:229-249 | retires exactly the generations in scope that the batch did not maintain |
| Residency.DeviceStore.ApplyBatch | crates/engine/src/engine_commit.rs:1034-1877 | a multi-entry batch succeeds if and only if every entry is acceptable at its turn and the append is not declined; then each device generation is retired or equal to applying the entries one at a time, coalesced tables are equal at every boundary inside the batch, exactly the generations out of scope or maintained are kept, and only an unmatched keyed update or a coalesced insert without rows can cost an authoritative table its copy, never a DELETE or UPDATE |
| Residency.DeviceStore.ApplyEntries | crates/engine/src/engine_commit.rs:1034-1830 | everything before the retirement leaves every table exact and names exactly the tables the batch maintained |
| Residency.RowEntriesKeepCopies | crates/engine/src/engine_commit.rs:1341-1375 | a DELETE or UPDATE keeps its table's copy whatever it matches |
| Residency.UnmatchedKeyedUpdateRetiresItsTable | crates/engine/src/engine_commit.rs:2231-2236 | a keyed update that matches nothing changes no row, is accepted, makes its table authoritative and leaves it in scope and unmaintained inside a multi-entry batch |
| KeyedReplay.ReplayStore.ApplyRecord | crates/engine/src/engine_commit.rs:2121-2335 | accepts and applies a record as specified, or refuses unknown tables, undecodable rows, an unpatched reservation, an ambiguous key and allocator overflow |
| KeyedReplay.RefusedIff | crates/engine/src/engine_commit.rs:2121-2335 | a record is refused if and only if its table is unknown, a row does not decode, the reservation is unpatched, two rows hold the key, or the allocator overflows |
| KeyedReplay.AllocatorAdvancesByLog | crates/engine/src/engine_commit.rs:2231-2326 | over any log the allocator advances by the rows its inserts carry plus the number of its update records, whatever they match |
| KeyedReplay.ReplayKeepsIdsDistinct | crates/engine/src/engine_commit.rs:2121-2335 | live identities stay distinct over all tables when inserts carry fresh ones |
| KeyedReplay.IdentitiesBalance | crates/engine/src/engine_commit.rs:2121-2335 | per table, identities live before plus inserted are identities live after plus deleted, so updates change none |
| KeyedReplay.UpdateKeepsIdentities | crates/engine/src/engine_commit.rs:2209-2276 | an update leaves every table's identities as they were |
| KeyedReplay.UpdateReplacesOneImage | crates/engine/src/engine_commit.rs:2161-2276 | an update replaces the image of the one row holding the key and touches no other |
| KeyedReplay.DeleteAndInsertMeaning | crates/engine/src/engine_commit.rs:2121-2207 | a delete takes out every row holding the key and no other; an insert appends its decoded rows |
| KeyedReplay.InsertThenDeleteOrUpdate | crates/engine/src/engine_commit.rs:2121-2335 | a row under a new key can be inserted and deleted without trace, or updated under its first identity, spending the identities the records carry |
| KeyedReplay.OtherTablesStay | crates/engine/src/engine_commit.rs:2121-2335 | a record changes its own table only |
| Columns.ColumnRunsKeepEverything | crates/engine/src/engine_ddl_alter.rs:270-700 | over any sequence of column statements attnums are 1..n, row widths match, the value index is exact, every index key, CHECK and foreign key names the column it always named, exactly the columns an accepted DROP named are gone, and every other column keeps its comment and its cells |
| Columns.AddKeepsInv | crates/engine/src/engine_ddl_alter.rs:342-426 | adding a column keeps that invariant |
| Columns.RenameKeepsInv | crates/engine/src/engine_ddl_alter.rs:469-536 | renaming keeps it |
| Columns.DropKeepsInv | crates/engine/src/engine_ddl_alter.rs:574-691 | dropping keeps it |
| Columns.AddKeepsIndexExact | crates/engine/src/engine_ddl_alter.rs:396-413 | the backfilled slots list exactly the rows holding each default |
| Columns.RenameKeepsIndexExact | crates/engine/src/engine_ddl_alter.rs:469-487 | re-keying the slots keeps the index exact |
| Columns.DropKeepsIndexExact | crates/engine/src/engine_ddl_alter.rs:612-650 | removing the slots and cells keeps the index exact for the shifted columns |
| Columns.DropEvolves | crates/engine/src/engine_ddl_alter.rs:652-691 | shifting the comments down gives every surviving column its own comment back |
| Columns.StepOnlyDrops | crates/engine/src/engine_ddl_alter.rs:270-700 | one statement removes the column an accepted DROP names and no other |
| Columns.StepReferencesFollow | crates/engine/src/engine_ddl_alter.rs:499-536 | no statement makes an index key, CHECK or foreign key name another column |
| Columns.AddAndRenameMeaning | crates/engine/src/engine_ddl_alter.rs:342-536 | ADD appends one column with the given name, a fresh id and its default in every row; RENAME gives the column its new name; every other column keeps id and name |
| Columns.RenameBackRestores | crates/engine/src/engine_ddl_alter.rs:469-536 | renaming there and back restores the whole catalog |
| Columns.AddThenDropRestores | crates/engine/src/engine_ddl_alter.rs:342-691 | a column just added can be dropped, which restores everything but the spent column id |
| Columns.RefusedIff | crates/engine/src/engine_ddl_alter.rs:270-610 | the exact reasons for which each column statement is refused |
| Columns.ColumnCatalog.ApplyAddColumn | crates/engine/src/engine_ddl_alter.rs:270-426 | adds as specified or changes nothing: wrong kind, missing table, duplicate name, unusable default, attnum or column-id exhaustion |
| Columns.ColumnCatalog.ApplyRenameColumn | crates/engine/src/engine_ddl_alter.rs:429-545 | renames in columns, indexes, checks and every table's foreign keys, or changes nothing |
| Columns.ColumnCatalog.ApplyDropColumn | crates/engine/src/engine_ddl_alter.rs:547-700 | drops, renumbers and shifts comments, or refuses a column something depends on |
| Roles.RoleRunsStayConsistent | crates/engine/src/engine_ddl_pubsub_role.rs:66-265 | over any run of role, comment, grant and revoke statements every grantee and every commented role exists and no OID is ever reused |
| Roles.PrivilegesAfter | crates/engine/src/engine_ddl_acl.rs:140-181 | GRANT adds and REVOKE removes exactly the listed privileges of one grantee on one object |
| Roles.RolesAfter | crates/engine/src/engine_ddl_pubsub_role.rs:66-182 | role statements change the listed roles and comments and nothing else; a dropped role is gone, a created one has the next OID |
| Roles.RenameMoves | crates/engine/src/engine_ddl_pubsub_role.rs:184-265 | a rename moves role and comment to the new name and leaves every other role and comment |
| Roles.CreateThenDrop | crates/engine/src/engine_ddl_pubsub_role.rs:66-182 | a role created under a free name can be dropped at once, spending only its OID, unless it is called public and PUBLIC holds something |
| Roles.RefusedIff | crates/engine/src/engine_ddl_pubsub_role.rs:66-230 | the exact reasons for which each role, grant and revoke statement is refused |
| Roles.RenameKeepsPrivileges | crates/engine/src/engine_ddl_pubsub_role.rs:184-265 | a rename keeps each OID's privileges on every object kind and leaves other grantees alone |
| Roles.OnlyPublicIsInTheWay | crates/engine/src/engine_ddl_acl.rs:98-106 | the only free name that can already be a grantee is public |
| Roles.RenameBackRestoresIff | crates/engine/src/engine_ddl_pubsub_role.rs:184-265 | renaming there and back restores the catalog if and only if the new name was no grantee |
| Roles.RenameToPublicOverwrites | crates/engine/src/engine_ddl_pubsub_role.rs:221-225 | renaming a role to public replaces what PUBLIC had |
| Roles.RevokeUndoesGrantIff | crates/engine/src/engine_ddl_acl.rs:140-181 | revoking what was granted restores the list if and only if the grant was disjoint from it and no entry was bare |
| Roles.RoleCatalog.ApplyCreateRole | crates/engine/src/engine_ddl_pubsub_role.rs:66-90 | creates with the next OID or refuses |
| Roles.RoleCatalog.ApplyDropRole | crates/engine/src/engine_ddl_pubsub_role.rs:147-182 | checks every name before removing any |
| Roles.RoleCatalog.ApplyRenameRole | crates/engine/src/engine_ddl_pubsub_role.rs:184-265 | moves role, comment and all ACL entries |
| Roles.RoleCatalog.ApplyCommentOnRole | crates/engine/src/engine_ddl_alter.rs:10-223 | sets or removes the comment of an existing role, the bootstrap role included |
| Roles.RoleCatalog.ApplyGrant | crates/engine/src/engine_ddl_acl.rs:76-158 | adds exactly the given privileges to one grantee of one object, or refuses a keyword of another kind or a missing grantee |
| Roles.RoleCatalog.ApplyRevoke | crates/engine/src/engine_ddl_acl.rs:76-181 | removes exactly the given privileges and an entry left empty, with the same refusals |
| Sequences.PublicationsBindFinalNames | crates/engine/src/engine_commit.rs:1159-1198 | an accepted list ends with every listed OID under its final name and state, every other sequence untouched and every default on the sequence it named |
| Sequences.PublicationsAcceptedIff | crates/engine/src/engine_commit.rs:187-229 | a list is accepted if and only if its OIDs are live and strictly increasing and every final name is free at its turn, read off the initial catalog |
| Sequences.SwapIsRefused | crates/engine/src/engine_commit.rs:208-216 | two publications cannot exchange names |
| Sequences.LiveRunsKeepDefaults | crates/engine/src/engine_ddl_pubsub_role.rs:422-501 | over any live run every nextval default names an existing sequence, always the one it named at the start |
| Sequences.RenameMoves | crates/engine/src/engine_ddl_pubsub_role.rs:422-501 | a rename binds the sequence with state and comment to the new name and leaves every other sequence and comment |
| Sequences.RenameBackRestores | crates/engine/src/engine_ddl_pubsub_role.rs:422-501 | renaming there and back restores the catalog |
| Sequences.DropRemovesListed | crates/engine/src/engine_ddl_objects.rs:1282-1305 | a drop takes out the listed sequences with their comments and nothing else |
| Sequences.SetValueMeaning | crates/engine/src/engine_commit.rs:187-229 | setting a value installs exactly the given state under the same OID |
| Sequences.RefusedIff | crates/engine/src/engine_ddl_acl.rs:668-735 | the exact reasons for which a rename or a drop is refused |
| Sequences.HistoricalRenameKeepsDefaultsIff | crates/engine/src/engine_ddl_pubsub_role.rs:468-487 | a historical rename keeps defaults resolvable if and only if none named the sequence |
| Sequences.HistoricalDropKeepsDefaultsIff | crates/engine/src/engine_ddl_acl.rs:717-731 | a historical drop keeps defaults resolvable if and only if none named a dropped sequence |
| Sequences.HistoricalReplayStrandsADefault | crates/engine/src/engine_ddl_pubsub_role.rs:468-487 | a catalog where replaying the rename or the drop strands a default, the live rename carries it along and the live drop is refused |
| Sequences.SequenceCatalog.ApplyRename | crates/engine/src/engine_ddl_pubsub_role.rs:422-501 | renames sequence, defaults and comment, or changes nothing |
| Sequences.SequenceCatalog.PreflightDrop | crates/engine/src/engine_ddl_acl.rs:668-735 | refuses repeated names, wrong kinds, missing sequences and, live, sequences a default depends on |
| Sequences.SequenceCatalog.ApplyDrop | crates/engine/src/engine_ddl_objects.rs:1282-1305 | removes the listed sequences and their comments after every name passed |
| Sequences.SequenceCatalog.PublishPrivateSequences | crates/engine/src/engine_commit.rs:1159-1198 | publishes the list in order or refuses it |
| Needles.ComputeGcd | crates/engine/examples/r1_wave_index_ab.rs:45-52 | the loop returns the greatest common divisor |
| Needles.FindStep | crates/engine/examples/r1_wave_index_ab.rs:205-213 | the search terminates with the first step coprime to the row count, counting up from its first try and wrapping round to 1 |
| Needles.NeedlesForBatch | crates/engine/examples/r1_wave_index_ab.rs:126-137 | needles of one batch are pairwise distinct when the batch fits the row count, the step is coprime, no product wraps and the row count fits 2^32 |
| Needles.PeriodDistinctIff | crates/engine/examples/r1_wave_index_ab.rs:130-136 | a whole period is distinct if and only if there are at most 2^32 rows, because of the cast to i32 |
| Needles.LargeTableRepeatsNeedles | crates/engine/examples/r1_wave_index_ab.rs:134-134 | at 2^32 + 1 rows the search stops at its first try, and needle 390570202 of that walk is needle 0 again |
| Batcher.FlushesThenQueueAreTheStream | crates/batching/src/lib.rs:41-87 | over any run flushed batches followed by the queue are the enqueued items in order with requeued groups inserted at the flush point |
| Batcher.WithoutRequeues | crates/batching/src/lib.rs:41-55 | without requeues that is what was enqueued, and the queue stays below the count limit |
| Batcher.RunsStayValid | crates/batching/src/lib.rs:41-87 | the stored head time is always the queue head's enqueue time, none exactly when empty |
| Batcher.TimeFlushIffNothingRemains | crates/batching/src/lib.rs:57-63 | a time flush happens exactly when the reported remaining time is zero |
| Batcher.FlushesAreTriggered | crates/batching/src/lib.rs:41-87 | a batch leaves if and only if the queue reaches the count limit, the head has waited long enough, or one is requested; the reason names the trigger and the batch is everything that waited |
| Batcher.RequeueUndoesFlush | crates/batching/src/lib.rs:69-87 | putting a flushed batch back restores the batcher |
| Batcher.DualTriggerBatcher.Enqueue | crates/batching/src/lib.rs:41-55 | enqueues with its time and flushes at the count limit |
| Batcher.DualTriggerBatcher.MaybeFlushDueToTime | crates/batching/src/lib.rs:57-63 | flushes when the head has waited long enough |
| Batcher.DualTriggerBatcher.RequeueFront | crates/batching/src/lib.rs:69-78 | puts items before the queue and takes over their head time |
| Batcher.DualTriggerBatcher.Flush | crates/batching/src/lib.rs:80-87 | empties the queue into one batch |
| Replication.WalBuffer.AppendCanonical | crates/wal/src/buffer.rs:1075-1089 | appends one record to the undurable tail |
| CommitEngine.Engine.constructor | crates/engine/src/engine_commit.rs:431-571 | a fresh engine that knows some durably aborted identities satisfies the invariant |
| CommitEngine.Engine.PrepareAll | crates/engine/src/engine_commit.rs:738-774 | the proposal loop prepares the whole group or nothing |
| CommitEngine.Engine.ApplyEntry | crates/engine/src/engine_commit.rs:1432-1433 | one more entry applied and marked |
| CommitEngine.Engine.PublishApplied | crates/engine/src/engine_commit.rs:1887-1889 | reporting the applied entries publishes exactly them and is covered |
| CommitEngine.Engine.Finish | crates/engine/src/engine_commit.rs:827-833 | a failure after the flush wedges the engine |
| CommitEngine.Engine.CommitUnclaimed | crates/engine/src/engine_commit.rs:499-570 | a request nothing else claims is committed, cleanly refused, or left indeterminate on a wedged engine |
| CommitEngine.Engine.AdmitItem | crates/engine/src/engine_commit.rs:650-710 | one batch item is skipped as a retry, refused as a conflict, or claimed |
| CommitEngine.Engine.CommitGroup | crates/engine/src/engine_commit.rs:714-837 | the flush group of the admitted items is the specified transition |
| FlatAssembly.SortRange | crates/engine/examples/result_materialization_probe.rs:91-94 | the library's stable sort on one sub-slice, the rest of the slots unchanged |
| FlatAssembly.RangesTile | crates/engine/examples/result_materialization_probe.rs:76-82 | the ranges tile the rows |
| Residency.DeviceStore.ApplyEntry | crates/engine/src/engine_commit.rs:1078-1375 | any entry whose table is not coalesced leaves every copy exact at its own index |
| Residency.DeviceStore.ApplyLoop | crates/engine/src/engine_commit.rs:1078-1433 | the apply loop keeps published tables exact and coalesced tables exact once their rows are appended |
| Residency.DeviceStore.ApplySingle | crates/engine/src/engine_commit.rs:1507-1647 | a batch of one entry is accepted as its entry is and keeps every table exact: a row record is handled, and its table keeps a copy, even when it matches nothing |
| KeyedReplay.ReplayStore.DecodeRows | crates/engine/src/engine_commit.rs:2297-2315 | decodes every row image with its identity, in order, or refuses the record |
| KeyedReplay.ReplayStore.AdvanceRowId | crates/engine/src/resident_storage.rs:543-561 | advances the allocator or refuses to overflow |
| Columns.RenameNames | crates/engine/src/engine_ddl_alter.rs:504-514 | renames every occurrence of one column in a list of names |
| Columns.RenameIndexes | crates/engine/src/engine_ddl_alter.rs:499-509 | renames the column in single and compound index keys |
| Columns.RenameForeignKeys | crates/engine/src/engine_ddl_alter.rs:515-536 | renames the column on the owning and on the referencing side |
| Columns.ColumnCatalog.Backfill | crates/engine/src/engine_ddl_alter.rs:366-413 | widens every row with its default and pushes its key into the new slot |
| Columns.ColumnCatalog.RemoveCells | crates/engine/src/engine_ddl_alter.rs:614-630 | removes one cell from every row |
| Columns.ColumnCatalog.Renumber | crates/engine/src/engine_ddl_alter.rs:658-662 | renumbers attributes 1..n |
| Sequences.LiveRenameKeepsInv | crates/engine/src/engine_ddl_pubsub_role.rs:422-501 | a live rename keeps every default on the sequence it named |
| Sequences.LiveDropKeepsInv | crates/engine/src/engine_ddl_acl.rs:717-731 | a live drop keeps every default resolvable |
| Sequences.PublishedBinds | crates/engine/src/engine_commit.rs:187-229 | publishing one sequence rebinds that OID and nothing else |
| Sequences.SequenceCatalog.PublishOne | crates/engine/src/engine_commit.rs:187-229 | binds one OID to its final name and state, or refuses |
| Roles.StepKeepsInv | crates/engine/src/engine_ddl_pubsub_role.rs:66-265 | every statement keeps grantees valid and OIDs distinct |
| Roles.StepReusesNoOid | crates/engine/src/engine_ddl_pubsub_role.rs:76-79 | no statement brings an old OID back |
| Needles.BatchNeedlesDistinct | crates/engine/examples/r1_wave_index_ab.rs:126-137 | two needles within one period differ |
| Needles.GcdIsGreatest | crates/engine/examples/r1_wave_index_ab.rs:45-52 | every common divisor divides the result |
| Batcher.DualTriggerBatcher.FlushAdmin | crates/batching/src/lib.rs:65-67 | flushes on request |
| Batcher.DualTriggerBatcher.constructor | crates/batching/src/lib.rs:31-39 | starts empty without a head time |
| Batcher.StepConserves | crates/batching/src/lib.rs:41-87 | one operation moves items between batch and queue without loss |

## Left out

- GPU kernels, device memory cells and timing: the deciding code is foreign.
- Benchmarks, probes and command-line examples other than the two algorithms above, and the Python reporting scripts: I/O and formatting.
- Chunk-authoritative tables, auto-vacuum, typed generation roots and codec-5 internals inside the apply loop: they rest on components outside this model.
- Catalog accessors, COPY plumbing, join IR, insert plan, canonical operation and column-default codecs: one-branch lookups and case matches that would only add easy members.
- Serialized-path timestamp order: the timestamp is taken before the lock or supplied by the caller; only the in-batch order is promised.
- The conflict ledger, replication terms, replicator snapshots and crash recovery: a run starts from a fresh engine that may know durably aborted identities.
- Wrap-around of the u64 tail counters of the quiescence gate: they are unbounded here.
- Fairness of the quiescence gate: the off-lock waits may return at any moment. A claimant gets in whenever it locks a quiescent engine and every state can come to rest, but how long a claimant waits under a given scheduler is not stated.
- Quiescence models threads by atomic steps on values rather than by shared objects: the interleaving, not the memory layout, is what the gate is about.
- Replication.LocalReplicator.MarkApplied: the applied term is not tracked; replication terms are left out.
- Replication.WalBuffer.FlushAll: group-flush retry and poisoning are one outcome, the watermark stays.
- Replication.WalBuffer.Truncate: the rewind of the segment file, the frame-log backend and typed exact positions, which refuse truncation, are not modelled.
- CommitEngine.Engine.ApplyAndPublishCommitted: catalog, residency and root preparation before publication are one fault.
- Residency.ScopeOf: catalog commands inside a transaction record, which can widen its scope, are not modelled.
- Residency.DeviceStore.ApplyRow: foreign-key and constraint preflights of a statement are not modelled there; CHECK validation is `CheckEvaluation`.
- Residency.DeviceStore.ApplyTransaction: table resets and tables created by the record are not modelled.
- Residency.DeviceStore.ApplyBatch: table resets inside transaction records and the post-publication cache refresh are not modelled; iteration over table sets is simultaneous, which loses only the order in which independent tables are visited.
- Residency.DeviceStore.EnsureGeneration: a missing generation is populated for every row record, where the code does so for statements and expects replayed records to find one.
- KeyedReplay.ReplayStore.ApplyRecord: foreign-key checks of the delete it synthesizes are not modelled.
- Columns.ColumnCatalog.ApplyAddColumn: the default's evaluation is a parameter, and value-index keys use the value itself instead of its canonical index form.
- Roles.RoleCatalog.ApplyGrant: the published and the working catalog are one.
- Sequences.SequenceCatalog.ApplyRename: the legacy namespace rule, which ignores some relation kinds when looking for a clash, is one set of other relation names here.
- Sequences.SequenceCatalog.PreflightDrop: the same namespace rule is one set of other relation names here.
- CheckViolation.CompiledSelectsViolations: canonical date and uuid text is identified with the value it denotes, because the formatting code is not part of this model.
- CheckEvaluation.PreflightAddCheck: the text parsers are a parameter constrained to yield a value of the column's type, and their errors are one; the lookup of the table and of a free constraint name is not modelled.
- CheckEvaluation.ValidateOnDevice: a missing column and a declined lowering are one refusal; device errors and the u32 bound on the row count are not modelled.
- FlatAssembly.SortRanges: the library's stable sort of a slice is one step; `StableSortUnique` shows that its result is determined.
- CommitEngine.Engine.ApplyEntries: entries are opaque payloads there; what applying a batch of row entries does to tables is `Residency`.
