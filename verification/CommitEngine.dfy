/**
 The commit paths of crates/engine/src/engine_commit.rs as the engine executes them, step by step on
 its log, WAL, status index and publication join, proved against `CommitSpec`.

 `observed` records the whole engine state after every write to a field and after every call on the
 log, the WAL or the join, so that the class invariant speaks about every state a concurrent reader
 could meet.  The single stores inside a report to the join are observed by `Publication`.
 */
module CommitEngine {
  import opened Primitives
  import opened Replication
  import opened Publication
  import opened CommitSpec
  import opened CommitRuns

  ghost predicate AllVisibleSafe(views: seq<EngineView>)
  {
    forall k :: 0 <= k < |views| ==> VisibleSafe(views[k])
  }

  lemma ProposalsAccumulate(log: LogView, payloads: seq<Payload>, next: Payload)
    requires Contiguous(log) && log.nextIndex + |payloads| + 1 <= U64_MAX
    ensures Proposed(Proposed(log, payloads), [next]) == Proposed(log, payloads + [next])
  {
    var a := Proposed(Proposed(log, payloads), [next]).entries;
    var b := Proposed(log, payloads + [next]).entries;
    assert a == b;
  }

  /** Proposing and appending one more item extends the prepared group by that item. */
  lemma AppendedGrows(v: EngineView, done: seq<Item>, item: Item)
    requires Contiguous(v.log) && v.log.nextIndex + |done| + 1 <= U64_MAX
    ensures var now := Appended(v, done);
      && now.log.nextIndex == v.log.nextIndex + |done|
      && Proposed(now.log, [item.payload]) == Proposed(v.log, Payloads(done + [item]))
      && now.wal + [WalRecord(item.txn, now.log.nextIndex, item.payload, item.digest)]
         == Appended(v, done + [item]).wal
  {
    assert Payloads(done + [item]) == Payloads(done) + [item.payload];
    ProposalsAccumulate(v.log, Payloads(done), item.payload);
    assert Records(done + [item], v.log.nextIndex)
        == Records(done, v.log.nextIndex)
           + [WalRecord(item.txn, v.log.nextIndex + |done|, item.payload, item.digest)];
  }

  lemma PreparationIsInvisible(v: EngineView, items: seq<Item>)
    requires Inv(v) && !v.wedged && v.log.nextIndex + |items| <= U64_MAX
    ensures VisibleSafe(Appended(v, items)) && VisibleSafe(Durable(v, items))
  {
    var grown := v.wal + Records(items, v.log.nextIndex);
    forall k | 0 <= k < v.committedSeq ensures HasStatus(grown, v.status, k) {
      assert HasStatus(v.wal, v.status, k);
    }
  }

  class Engine {
    const repl: LocalReplicator
    const wal: WalBuffer
    const publication: CommitPublicationCoordinator
    var status: map<TxnId, Status>
    var timestamps: map<TxnId, U64>
    var maxTimestamp: U64
    var active: set<TxnId>
    var pending: map<TxnId, Digest>
    var applied: seq<LogEntry>
    var wedged: bool
    ghost var observed: seq<EngineView>

    ghost function View(): EngineView
      reads this, repl, wal, publication
    {
      EngineView(repl.View(), wal.records, wal.flushed, status, timestamps, maxTimestamp, active, pending,
                 applied, publication.View(), publication.committedSeq, wedged)
    }

    ghost predicate Parts()
      reads this, repl, wal, publication
    {
      repl.Valid() && wal.Valid() && publication.Valid() && AllVisibleSafe(observed)
    }

    ghost predicate Valid()
      reads this, repl, wal, publication
    {
      Parts() && Inv(View())
    }

    constructor (aborted: map<TxnId, Digest>)
      ensures Valid() && View() == Initial(aborted)
      ensures fresh(repl) && fresh(wal) && fresh(publication)
    {
      repl := new LocalReplicator();
      wal := new WalBuffer();
      publication := new CommitPublicationCoordinator();
      status := map t | t in aborted :: AbortedOrphan(aborted[t]);
      timestamps, maxTimestamp, active, pending, applied, wedged := map[], 0, {}, map[], [], false;
      observed := [];
      new;
      assert View() == Initial(aborted);
    }

    ghost method Observe()
      requires AllVisibleSafe(observed) && VisibleSafe(View())
      modifies this`observed
      ensures AllVisibleSafe(observed) && observed == old(observed) + [View()]
    {
      observed := observed + [View()];
    }

    // -------------------------------------------------------------- preparation

    /** Withdraw a prepared group: log and WAL return to what they were before it. */
    method AbortPreparation(first: U64, walLength: nat, ghost before: EngineView, ghost proposed: seq<Payload>)
      requires Parts() && Inv(before) && !before.wedged
      requires first == before.log.nextIndex && walLength == |before.wal|
      requires before.log.nextIndex + |proposed| <= U64_MAX
      requires repl.View() == Proposed(before.log, proposed)
      requires wal.flushed == before.flushed && before.wal <= wal.records
      requires View() == before.(log := repl.View(), wal := wal.records) && VisibleSafe(View())
      modifies repl, wal, this`observed
      ensures Parts() && View() == before
    {
      WithdrawUndoesProposals(before.log, proposed);
      repl.RollbackUnappliedFrom(first);
      Observe();
      wal.Truncate(walLength);
      assert View() == before;
      Observe();
    }

    /** Propose one item and append its record, or abort the whole group. */
    method PrepareItem(item: Item, started: bool, recordFails: bool, first: U64, walLength: nat,
                       ghost before: EngineView, ghost done: seq<Item>)
      returns (error: Option<Error>)
      requires Parts() && Inv(before) && !before.wedged && before.log.role == Leader
      requires first == before.log.nextIndex && walLength == |before.wal|
      requires |done| <= Room(before) && started == (done != [])
      requires View() == Appended(before, done)
      modifies repl, wal, this`observed
      ensures Parts()
      ensures error == if |done| == Room(before) then Some(ProposalFailed)
                       else if recordFails then Some(RecordFailed) else None
      ensures error.Some? ==> View() == before
      ensures error.None? ==> View() == Appended(before, done + [item])
    {
      hide HaveStatus, TxnsDistinct, StatusesNameRecords, Sequenced, LogMatchesWal, AppliedMatchesWal, AllVisibleSafe;
      PreparationIsInvisible(before, done);
      var index := repl.Propose(item.payload);
      if index.None? {
        if started {
          AbortPreparation(first, walLength, before, Payloads(done));
        } else {
          NothingPrepared(before);
        }
        return Some(ProposalFailed);
      }
      AppendedGrows(before, done, item);
      Observe();
      if recordFails {
        AbortPreparation(first, walLength, before, Payloads(done + [item]));
        return Some(RecordFailed);
      }
      wal.AppendCanonical(WalRecord(item.txn, index.value, item.payload, item.digest));
      PreparationIsInvisible(before, done + [item]);
      assert View() == Appended(before, done + [item]);
      Observe();
      error := None;
    }

    method PrepareAll(items: seq<Item>, recordFailsAt: Option<nat>) returns (error: Option<Error>)
      requires Valid() && !wedged && repl.role == Leader
      modifies repl, wal, this`observed
      ensures Parts()
      ensures error == PrepareError(old(View()), items, recordFailsAt, false)
      ensures View() == if error.Some? then old(View()) else Appended(old(View()), items)
    {
      hide HaveStatus, TxnsDistinct, StatusesNameRecords, Sequenced, LogMatchesWal, AppliedMatchesWal, AllVisibleSafe;
      ghost var before := View();
      var walLength := |wal.records|;
      var first := repl.nextIndex;
      var k := 0;
      NothingPrepared(before);
      assert items[..0] == [];
      while k < |items|
        invariant 0 <= k <= |items| && k <= Room(before)
        invariant recordFailsAt.Some? ==> k <= recordFailsAt.value || |items| <= recordFailsAt.value
        invariant Parts() && View() == Appended(before, items[..k])
      {
        assert items[..k + 1] == items[..k] + [items[k]];
        error := PrepareItem(items[k], k != 0, recordFailsAt == Some(k), first, walLength, before, items[..k]);
        if error.Some? { return; }
        k := k + 1;
      }
      assert items[..k] == items;
      error := None;
    }

    /** Propose and append every item, then flush once.  A clean failure leaves no trace. */
    method Prepare(items: seq<Item>, recordFailsAt: Option<nat>, flushFails: bool) returns (error: Option<Error>)
      requires Valid() && !wedged && repl.role == Leader
      modifies repl, wal, this`observed
      ensures Parts()
      ensures error == PrepareError(old(View()), items, recordFailsAt, flushFails)
      ensures View() == if error.Some? then old(View()) else Durable(old(View()), items)
    {
      hide HaveStatus, TxnsDistinct, StatusesNameRecords, Sequenced, LogMatchesWal, AppliedMatchesWal, AllVisibleSafe;
      ghost var before := View();
      var walLength := |wal.records|;
      var first := repl.nextIndex;
      error := PrepareAll(items, recordFailsAt);
      if error.Some? { return; }
      PreparationIsInvisible(before, items);
      var flushed := wal.FlushAll(flushFails);
      Observe();
      if !flushed {
        AbortPreparation(first, walLength, before, Payloads(items));
        return Some(FlushFailed);
      }
    }

    // -------------------------------------------------------------- terminal statuses

    /** Install one terminal claim with its timestamp; a second claim for an identity is refused. */
    method RecordOutcome(item: Item, index: U64, timestamp: U64) returns (ok: bool)
      requires AllVisibleSafe(observed) && VisibleSafe(View())
      modifies this`status, this`timestamps, this`maxTimestamp, this`pending, this`observed
      ensures AllVisibleSafe(observed) && VisibleSafe(View())
      ensures ok <==> item.txn !in old(status)
      ensures ok ==> View() == InstallOne(old(View()), item, index, timestamp)
    {
      timestamps := timestamps[item.txn := timestamp];
      Observe();
      maxTimestamp := Max(maxTimestamp, timestamp);
      Observe();
      if item.txn in status { return false; }
      ghost var before := status;
      status := status[item.txn := Committed(item.digest, index, item.affectedRows)];
      NewStatusKeepsOthers(wal.records, before, item, index, publication.committedSeq);
      Observe();
      pending := ReleaseClaim(pending, item);
      Observe();
      ok := true;
    }

    /** Statuses and timestamps for a whole durable group, in order. */
    method RecordOutcomes(items: seq<Item>, first: U64, wallClock: U64)
      requires Parts() && VisibleSafe(View()) && first + |items| <= U64_MAX
      requires forall k :: 0 <= k < |items| ==> items[k].txn !in status
      requires forall j, k :: 0 <= j < k < |items| ==> items[j].txn != items[k].txn
      modifies this`status, this`timestamps, this`maxTimestamp, this`pending, this`observed
      ensures Parts() && View() == InstallAll(old(View()), items, first, wallClock)
    {
      hide HaveStatus, Sequenced, AllVisibleSafe, VisibleSafe;
      ghost var before := View();
      var k := 0;
      assert items[..0] == [];
      while k < |items|
        invariant 0 <= k <= |items|
        invariant Parts() && VisibleSafe(View())
        invariant View() == InstallAll(before, items[..k], first, wallClock)
        invariant forall j :: k <= j < |items| ==> items[j].txn !in status
      {
        assert items[..k + 1][..k] == items[..k];
        var timestamp := Max(wallClock, SaturatingIncrement(maxTimestamp));
        var ok := RecordOutcome(items[k], first + k, timestamp);
        assert ok;
        k := k + 1;
      }
      assert items[..k] == items;
    }

    // -------------------------------------------------------------- apply and publication

    /** A claimant may acknowledge only what is inside the published prefix. */
    method RequirePublicationCoverage(visible: U64, terminal: U64) returns (ok: bool)
      requires AllVisibleSafe(observed) && VisibleSafe(View())
      modifies this`wedged, this`observed
      ensures AllVisibleSafe(observed)
      ensures ok <==> terminal <= visible
      ensures wedged == (old(wedged) || !ok)
    {
      if terminal <= visible { return true; }
      wedged := true;
      Observe();
      ok := false;
    }

    method ApplyEntry(entry: LogEntry, ghost before: EngineView, ghost k: nat)
      requires Parts() && Safe(before) && k < |Unapplied(before.log)| && entry == Unapplied(before.log)[k]
      requires View() == AppliedUpTo(before, k)
      modifies this`applied, this`observed, repl`appliedIndex
      ensures Parts() && View() == AppliedUpTo(before, k + 1)
    {
      hide TxnsDistinct, StatusesNameRecords, HaveStatus, Sequenced, AllVisibleSafe, Unapplied;
      UnappliedIsConsecutive(before.log);
      ghost var todo := Unapplied(before.log);
      assert todo[..k + 1] == todo[..k] + [todo[k]];
      applied := applied + [entry];
      Observe();
      repl.MarkApplied(entry.index);
      assert View() == AppliedUpTo(before, k + 1);
      Observe();
    }

    /** Feed the committed entries to the state machine in order, stopping at the first failure. */
    method ApplyEntries(todo: seq<LogEntry>, fault: PostFault) returns (ok: bool)
      requires Parts() && Safe(View()) && todo == Unapplied(repl.View())
      modifies this`applied, this`observed, repl`appliedIndex
      ensures Parts()
      ensures ok <==> !(fault.ApplyFailsAt? && fault.entry < |todo|)
      ensures View() == AppliedUpTo(old(View()), if ok then |todo| else fault.entry)
    {
      hide TxnsDistinct, StatusesNameRecords, HaveStatus, Sequenced, AllVisibleSafe, Unapplied;
      ghost var before := View();
      UnappliedIsConsecutive(before.log);
      var k := 0;
      assert before.applied + todo[..0] == before.applied;
      while k < |todo|
        invariant 0 <= k <= |todo|
        invariant fault.ApplyFailsAt? ==> k <= fault.entry || |todo| <= fault.entry
        invariant Parts() && View() == AppliedUpTo(before, k)
      {
        if fault.ApplyFailsAt? && fault.entry == k { return false; }
        ApplyEntry(todo[k], before, k);
        k := k + 1;
      }
      ok := true;
    }

    /** The post-durability tail: apply, then report every applied index to the join. */
    method ApplyAndPublishCommitted(publishIndex: U64, fault: PostFault) returns (ok: bool)
      requires Parts() && Safe(View()) && AwaitingApply(View())
      requires repl.appliedIndex == publication.committedSeq && publication.ready == {}
      requires publishIndex == repl.commitIndex
      modifies this`applied, this`observed, this`wedged, repl`appliedIndex, publication
      ensures Parts() && (View(), ok) == ApplyAndPublish(old(View()), fault)
    {
      hide TxnsDistinct, StatusesNameRecords, HaveStatus, Sequenced, AllVisibleSafe, LogMatchesWal, AppliedMatchesWal;
      ghost var before := View();
      var todo := repl.DrainCommittedFrom(repl.appliedIndex);
      ok := ApplyEntries(todo, fault);
      if !ok { return; }
      if fault.PublishPreparationFails? { return false; }
      PublishApplied(todo, publishIndex, before);
    }

    method PublishApplied(done: seq<LogEntry>, publishIndex: U64, ghost before: EngineView)
      requires Parts() && Contiguous(before.log) && done == Unapplied(before.log)
      requires View() == AppliedUpTo(before, |done|) && VisibleSafe(before)
      requires publishIndex == before.log.commitIndex == before.flushed
      requires HaveStatus(before.wal, before.status, before.flushed)
      requires before.log.appliedIndex == before.committedSeq && before.join == Join(before.log.appliedIndex + 1, {})
      requires before.log.nextIndex == before.log.commitIndex + 1
      modifies this`observed, this`wedged, publication
      ensures Parts()
      ensures View() == AppliedUpTo(before, |done|).(join := Join(before.log.nextIndex, {}),
                                                     committedSeq := before.log.commitIndex)
    {
      hide HaveStatus, Sequenced, AllVisibleSafe, FirstMissing, AcceptedPrefix, Publish;
      var indices := seq(|done|, k requires 0 <= k < |done| => done[k].index);
      ConsecutiveReportIsPublished(before.log.appliedIndex, indices);
      var published := publication.PublishReadyIndices(indices);
      assert published.Published?;
      Observe();
      var covered := RequirePublicationCoverage(published.visible, publishIndex);
      assert covered;
    }

    /** Everything after the flush for a group whose statuses have been installed. */
    method Finish(publishIndex: U64, fault: PostFault) returns (ok: bool)
      requires Parts() && Safe(View()) && AwaitingApply(View())
      requires repl.appliedIndex == publication.committedSeq && publication.ready == {}
      requires publishIndex == repl.commitIndex && !fault.WaitFails?
      modifies this`applied, this`observed, this`wedged, repl`appliedIndex, publication
      ensures Parts() && (View(), ok) == Settle(old(View()), old(View()), fault)
    {
      ok := ApplyAndPublishCommitted(publishIndex, fault);
      if !ok {
        wedged := true;
        Observe();
      }
    }

    // -------------------------------------------------------------- the serialized path

    /** A transaction nothing else claims: make it durable, record it, apply it, publish it. */
    method CommitUnclaimed(item: Item, timestamp: U64, env: OneEnv) returns (r: OneResult)
      requires Valid() && !wedged && repl.role == Leader && FreshAndDistinct(View(), [item])
      modifies this, repl, wal, publication
      ensures Valid() && (View(), r) == CommitFresh(old(View()), item, timestamp, env)
    {
      hide HaveStatus, TxnsDistinct, StatusesNameRecords, Sequenced, LogMatchesWal, AppliedMatchesWal,
           AllVisibleSafe, StatusesInstalled, Unapplied, AppliedUpTo;
      ghost var before := View();
      CommitFreshKeepsInv(before, item, timestamp, env);
      var index := repl.nextIndex;
      var error := Prepare([item], if env.recordFails then Some(0) else None, env.flushFails);
      if error.Some? { return Failed(error.value); }
      if env.fault.WaitFails? {
        wedged := true;
        Observe();
        return Failed(Indeterminate);
      }
      DurableKeepsSafe(before, [item]);
      FreshOne(before, item);
      var recorded := RecordOutcome(item, index, timestamp);
      assert recorded;
      OneStatusInstalled(before.status, item, index);
      InstalledAwaitsApply(before, [item], View());
      var published := Finish(index, env.fault);
      r := if published then Token(index) else Failed(Indeterminate);
    }

    /** The serialized commit path: retries and foreign claims are resolved under the lock, before
        anything is proposed. */
    method CommitMutationAt(item: Item, timestamp: U64, env: OneEnv) returns (r: OneResult)
      requires Valid()
      modifies this, repl, wal, publication
      ensures Valid() && (View(), r) == CommitOne(old(View()), item, timestamp, env)
    {
      hide Inv, CommitFresh, Parts;
      if env.snapshotActive || env.payloadRejected { return Failed(Refused); }
      if wedged { return Failed(Unavailable); }
      if repl.role != Leader { return Failed(NotLeader); }
      if env.laneGuard { return Failed(Refused); }
      match ResolveRetry(status, item.txn, item.digest) {
        case AlreadyAt(index) => return Token(index);
        case Conflict(error) => return Failed(error);
        case Fresh =>
      }
      if env.tableAccessFails || env.catalogChanged { return Failed(Refused); }
      if item.txn in pending {
        return Failed(if pending[item.txn] == item.digest then PendingClaim else DifferentRequest);
      }
      if item.txn in active { return Failed(OwnedByTransaction); }
      if env.preflightFails || env.outcomeFails { return Failed(Refused); }
      r := CommitUnclaimed(item, timestamp, env);
    }

    // -------------------------------------------------------------- the batch path

    /** Resolve one batch item: skip an exact retry, refuse a conflict, or claim the identity. */
    method AdmitItem(item: Item, claims: map<TxnId, Digest>, admitted: seq<Item>) returns (g: Admission)
      requires Parts() && VisibleSafe(View())
      modifies this`pending, this`observed
      ensures Parts() && pending == g.pending && View() == old(View()).(pending := pending)
      ensures g == AdmitOne(old(View()), Going(old(pending), claims, admitted), item)
    {
      match ResolveRetry(status, item.txn, item.digest) {
        case AlreadyAt(index) =>
          if publication.committedSeq < index { return Stopped(pending, NotYetPublished); }
          pending := ReleaseClaim(pending, item);
          Observe();
          return Going(pending, claims, admitted);
        case Conflict(error) => return Stopped(pending, error);
        case Fresh =>
      }
      if item.txn in pending && pending[item.txn] != item.digest { return Stopped(pending, DifferentRequest); }
      if item.txn in active { return Stopped(pending, OwnedByTransaction); }
      if item.txn !in claims {
        return Going(pending, claims[item.txn := item.digest], admitted + [item]);
      }
      if claims[item.txn] == item.digest { return Going(pending, claims, admitted); }
      g := Stopped(pending, DifferentRequest);
    }

    method AdmitAll(items: seq<Item>) returns (g: Admission)
      requires Parts() && VisibleSafe(View())
      modifies this`pending, this`observed
      ensures Parts() && g == Admit(old(View()), items) && View() == old(View()).(pending := g.pending)
    {
      hide AdmitOne, AllVisibleSafe;
      ghost var before := View();
      g := Going(pending, map[], []);
      var k := 0;
      assert items[..0] == [];
      while k < |items|
        invariant 0 <= k <= |items| && g.Going?
        invariant Parts() && View() == before.(pending := g.pending)
        invariant g == Admit(before, items[..k])
      {
        assert items[..k + 1][..k] == items[..k];
        AdmissionIgnoresPending(before, pending, g, items[k]);
        g := AdmitItem(items[k], g.claims, g.admitted);
        if g.Stopped? {
          AdmissionStops(before, items, k + 1);
          return;
        }
        k := k + 1;
      }
      assert items[..k] == items;
    }

    /** One flush group for the admitted items. */
    method CommitGroup(admitted: seq<Item>, env: BatchEnv) returns (r: BatchResult)
      requires Valid() && !wedged && repl.role == Leader && FreshAndDistinct(View(), admitted)
      modifies this, repl, wal, publication
      ensures Valid() && (View(), r) == CommitAdmitted(old(View()), admitted, env)
    {
      hide HaveStatus, TxnsDistinct, StatusesNameRecords, Sequenced, LogMatchesWal, AppliedMatchesWal,
           AllVisibleSafe, StatusesInstalled, Unapplied, AppliedUpTo, InstallAll;
      ghost var before := View();
      CommitAdmittedKeepsInv(before, admitted, env);
      if admitted == [] { return BatchOk; }
      if env.tableAccessFails || env.outcomesFail { return BatchFailed(false, Refused); }
      var first := repl.nextIndex;
      var error := Prepare(admitted, env.recordFailsAt, env.flushFails);
      if error.Some? { return BatchFailed(true, error.value); }
      if env.fault.WaitFails? {
        wedged := true;
        Observe();
        return BatchFailed(false, Indeterminate);
      }
      DurableKeepsSafe(before, admitted);
      AdmittedAreFresh(before, admitted);
      RecordOutcomes(admitted, first, env.wallClock);
      InstallAllInstalls(Durable(before, admitted), admitted, first, env.wallClock);
      InstalledAwaitsApply(before, admitted, View());
      var published := Finish(repl.commitIndex, env.fault);
      r := if published then BatchOk else BatchFailed(false, Indeterminate);
    }

    /** Commit a batch as one flush group. */
    method CommitMutationBatch(items: seq<Item>, env: BatchEnv) returns (r: BatchResult)
      requires Valid()
      modifies this, repl, wal, publication
      ensures Valid() && (View(), r) == CommitBatch(old(View()), items, env)
    {
      hide HaveStatus, TxnsDistinct, StatusesNameRecords, Sequenced, LogMatchesWal, AppliedMatchesWal,
           AllVisibleSafe, CommitAdmitted, Admit;
      if items == [] { return BatchOk; }
      if env.payloadRejected { return BatchFailed(false, Refused); }
      if wedged { return BatchFailed(true, Unavailable); }
      if env.laneGuard { return BatchFailed(false, Refused); }
      if repl.role != Leader { return BatchFailed(true, NotLeader); }
      AdmissionMeaning(View(), items);
      var g := AdmitAll(items);
      if g.Stopped? { return BatchFailed(false, g.error); }
      r := CommitGroup(g.admitted, env);
    }
  }

  lemma UnappliedIsConsecutive(log: LogView)
    requires Contiguous(log)
    ensures |Unapplied(log)| == log.commitIndex - log.appliedIndex
    ensures forall k :: 0 <= k < |Unapplied(log)| ==> Unapplied(log)[k].index == log.appliedIndex + 1 + k
  {
  }

  /** Reporting the next consecutive indices to an empty join publishes all of them. */
  lemma ConsecutiveReportIsPublished(applied: U64, indices: seq<U64>)
    requires applied + |indices| < U64_MAX
    requires forall k :: 0 <= k < |indices| ==> indices[k] == applied + 1 + k
    ensures Publish(Join(applied + 1, {}), indices)
         == (Join(applied + |indices| + 1, {}), Published(applied + |indices|))
  {
    assert forall k :: 0 <= k < |indices| ==> Publishable(indices[k]);
    assert AcceptedPrefix(indices) == indices;
    var j := Join(applied + 1, {});
    var next := applied + |indices| + 1;
    var ready := j.ready + AtOrAbove(Accepted(indices), j.visibleNext);
    forall i | applied + 1 <= i < next ensures i in ready {
      assert indices[i - applied - 1] == i;
    }
    FirstMissingUnique(j.visibleNext, ready, next);
    assert AtOrAbove(ready, next) == {};
  }

  /** Releasing claims during admission does not change how later items resolve. */
  lemma AdmissionIgnoresPending(v: EngineView, pending: map<TxnId, Digest>, g: Admission, item: Item)
    requires g.Going?
    ensures AdmitOne(v.(pending := pending), g, item) == AdmitOne(v, g, item)
  {
  }

  lemma {:induction false} AdmissionStops(v: EngineView, items: seq<Item>, k: nat)
    requires k <= |items| && Admit(v, items[..k]).Stopped?
    ensures Admit(v, items) == Admit(v, items[..k])
    decreases |items| - k
  {
    if k < |items| {
      assert items[..k + 1][..k] == items[..k];
      AdmissionStops(v, items, k + 1);
    } else {
      assert items[..k] == items;
    }
  }

  lemma FreshOne(v: EngineView, item: Item)
    requires FreshAndDistinct(v, [item])
    ensures item.txn !in v.status
  {
    assert [item][0] == item;
  }

  lemma NewStatusKeepsOthers(wal: seq<WalRecord>, status: map<TxnId, Status>, item: Item, index: U64, count: nat)
    requires count <= |wal| && HaveStatus(wal, status, count) && item.txn !in status
    ensures HaveStatus(wal, status[item.txn := Committed(item.digest, index, item.affectedRows)], count)
  {
    var after := status[item.txn := Committed(item.digest, index, item.affectedRows)];
    forall k | 0 <= k < count ensures HasStatus(wal, after, k) {
      assert HasStatus(wal, status, k);
    }
  }

  lemma NothingPrepared(v: EngineView)
    requires Contiguous(v.log)
    ensures Appended(v, []) == v
  {
    assert v.log.entries + Numbered(Payloads([]), v.log.nextIndex) == v.log.entries;
    assert v.wal + Records([], v.log.nextIndex) == v.wal;
  }
}
