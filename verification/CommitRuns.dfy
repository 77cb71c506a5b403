/**
 Whole-run theorems about the commit paths: safety of everything visible, exactly-once commit,
 clean abort, and durability of acknowledged work, over any mix of serialized and batched commits
 with a fault at any step.
 */
module CommitRuns {
  import opened Primitives
  import opened Replication
  import opened Publication
  import opened CommitSpec

  // ---------------------------------------------------------------- one call keeps the invariant

  /** `after` is `before` with the terminal statuses of `items`, numbered from `first`, and no other. */
  ghost predicate StatusesInstalled(
    before: map<TxnId, Status>, after: map<TxnId, Status>, items: seq<Item>, first: nat)
  {
    && (forall k :: 0 <= k < |items| ==>
          && items[k].txn in after
          && after[items[k].txn].Committed?
          && after[items[k].txn].digest == items[k].digest
          && after[items[k].txn].index == first + k
          && after[items[k].txn].affectedRows == items[k].affectedRows)
    && (forall t :: !Claims(items, t) ==> (t in after <==> t in before))
    && (forall t :: !Claims(items, t) && t in after ==> after[t] == before[t])
  }

  lemma {:induction false} InstallAllInstalls(v: EngineView, items: seq<Item>, first: nat, wallClock: U64)
    requires first + |items| <= U64_MAX
    requires forall j, k :: 0 <= j < k < |items| ==> items[j].txn != items[k].txn
    ensures StatusesInstalled(v.status, InstallAll(v, items, first, wallClock).status, items, first)
  {
    hide StatusesInstalled;
    if items == [] {
      NoneInstalled(v.status, first);
    } else {
      var n := |items| - 1;
      InstallAllInstalls(v, items[..n], first, wallClock);
      OneMoreInstalled(v.status, InstallAll(v, items[..n], first, wallClock).status, items, first);
    }
  }

  lemma NoneInstalled(status: map<TxnId, Status>, first: nat)
    ensures StatusesInstalled(status, status, [], first)
  {
  }

  lemma OneMoreInstalled(before: map<TxnId, Status>, mid: map<TxnId, Status>, items: seq<Item>, first: nat)
    requires items != [] && first + |items| <= U64_MAX
    requires forall j, k :: 0 <= j < k < |items| ==> items[j].txn != items[k].txn
    requires StatusesInstalled(before, mid, items[..|items| - 1], first)
    ensures var n := |items| - 1;
      var after := mid[items[n].txn := Committed(items[n].digest, first + n, items[n].affectedRows)];
      StatusesInstalled(before, after, items, first)
  {
    var n := |items| - 1;
    assert forall k :: 0 <= k < n ==> items[..n][k] == items[k];
    forall t | !Claims(items, t) ensures t != items[n].txn && !Claims(items[..n], t) {
      assert items[n].txn != t;
      assert forall k :: 0 <= k < n ==> items[..n][k].txn == items[k].txn != t;
    }
  }

  lemma StatusesCoverGrownWal(
    wal: seq<WalRecord>, before: map<TxnId, Status>, after: map<TxnId, Status>, items: seq<Item>)
    requires |wal| + 1 + |items| <= U64_MAX
    requires HaveStatus(wal, before, |wal|) && StatusesNameRecords(wal, before)
    requires forall k :: 0 <= k < |items| ==> items[k].txn !in before
    requires StatusesInstalled(before, after, items, |wal| + 1)
    ensures var grown := wal + Records(items, |wal| + 1);
      HaveStatus(grown, after, |grown|) && StatusesNameRecords(grown, after)
  {
    var grown := wal + Records(items, |wal| + 1);
    assert forall k :: 0 <= k < |items| ==>
      grown[|wal| + k] == WalRecord(items[k].txn, |wal| + 1 + k, items[k].payload, items[k].digest);
    forall k | 0 <= k < |grown| ensures HasStatus(grown, after, k) {
      if k < |wal| {
        assert HasStatus(wal, before, k);
        assert !Claims(items, wal[k].txn);
      } else {
        assert grown[|wal| + (k - |wal|)].txn == items[k - |wal|].txn;
      }
    }
    forall t | t in after && after[t].Committed?
      ensures 1 <= after[t].index <= |grown|
      ensures grown[after[t].index - 1].txn == t && grown[after[t].index - 1].digest == after[t].digest
    {
      if Claims(items, t) {
        var k :| 0 <= k < |items| && items[k].txn == t;
        assert after[t].index - 1 == |wal| + k;
      }
    }
  }

  /** Appending records for fresh, distinct items keeps identities unique and positions exact. */
  lemma GrownWalStaysSequenced(wal: seq<WalRecord>, status: map<TxnId, Status>, items: seq<Item>)
    requires |wal| + 1 + |items| <= U64_MAX
    requires Sequenced(wal) && TxnsDistinct(wal) && HaveStatus(wal, status, |wal|)
    requires forall k :: 0 <= k < |items| ==> items[k].txn !in status
    requires forall j, k :: 0 <= j < k < |items| ==> items[j].txn != items[k].txn
    ensures var grown := wal + Records(items, |wal| + 1); Sequenced(grown) && TxnsDistinct(grown)
  {
    var grown := wal + Records(items, |wal| + 1);
    assert forall k :: 0 <= k < |wal| ==> HasStatus(wal, status, k);
    assert forall k :: |wal| <= k < |grown| ==>
      grown[k].txn == items[k - |wal|].txn && grown[k].index == k + 1;
    forall k | 0 <= k < |wal| ensures grown[k].txn in status { assert HasStatus(wal, status, k); }
    forall j, k | 0 <= j < k < |grown| ensures grown[j].txn != grown[k].txn {
      if |wal| <= k { assert grown[k].txn !in status; }
    }
  }

  lemma GrownLogMatchesWal(entries: seq<LogEntry>, wal: seq<WalRecord>, items: seq<Item>)
    requires |wal| + 1 + |items| <= U64_MAX
    requires LogMatchesWal(entries, wal)
    ensures LogMatchesWal(entries + Numbered(Payloads(items), |wal| + 1), wal + Records(items, |wal| + 1))
  {
  }

  /** Making fresh, distinct items durable keeps every visible index safe and every identity unique. */
  lemma DurableKeepsSafe(v: EngineView, items: seq<Item>)
    requires Safe(v) && Synced(v) && FreshAndDistinct(v, items)
    requires v.log.nextIndex + |items| <= U64_MAX
    ensures Safe(Durable(v, items))
  {
    hide TxnsDistinct, Sequenced, LogMatchesWal, AppliedMatchesWal;
    WithdrawUndoesProposals(v.log, Payloads(items));
    GrownWalStaysSequenced(v.wal, v.status, items);
    var grown := v.wal + Records(items, v.log.nextIndex);
    assert forall k :: 0 <= k < |v.wal| ==> grown[k] == v.wal[k];
    assert HaveStatus(grown, v.status, v.committedSeq) by {
      forall k | 0 <= k < v.committedSeq ensures HasStatus(grown, v.status, k) {
        assert HasStatus(v.wal, v.status, k);
      }
    }
  }

  lemma AdmittedAreFresh(v: EngineView, items: seq<Item>)
    requires FreshAndDistinct(v, items)
    ensures forall k :: 0 <= k < |items| ==> items[k].txn !in v.status
    ensures forall j, k :: 0 <= j < k < |items| ==> items[j].txn != items[k].txn
  {
  }

  lemma HaveStatusBelow(wal: seq<WalRecord>, status: map<TxnId, Status>, more: nat, count: nat)
    requires count <= more <= |wal| && HaveStatus(wal, status, more)
    ensures HaveStatus(wal, status, count)
  {
  }

  lemma InstalledAwaitsApply(v: EngineView, items: seq<Item>, w: EngineView)
    requires Safe(v) && Synced(v) && FreshAndDistinct(v, items)
    requires v.log.nextIndex + |items| <= U64_MAX
    requires w == Durable(v, items).(status := w.status, timestamps := w.timestamps,
                                     maxTimestamp := w.maxTimestamp, pending := w.pending)
    requires StatusesInstalled(v.status, w.status, items, v.log.nextIndex)
    ensures Safe(w) && AwaitingApply(w)
    ensures Unapplied(w.log) == Numbered(Payloads(items), v.log.nextIndex)
  {
    hide TxnsDistinct, Sequenced, StatusesNameRecords, HaveStatus, LogMatchesWal, FreshAndDistinct, StatusesInstalled;
    DurableKeepsSafe(v, items);
    AdmittedAreFresh(v, items);
    StatusesCoverGrownWal(v.wal, v.status, w.status, items);
    GrownLogMatchesWal(v.log.entries, v.wal, items);
    HaveStatusBelow(w.wal, w.status, |w.wal|, w.committedSeq);
    assert AppliedMatchesWal(w.applied, w.wal);
    assert Unapplied(w.log) == Numbered(Payloads(items), v.log.nextIndex);
  }

  /** Consuming the next `count` unapplied entries keeps the state machine in step with the WAL. */
  lemma AppliedStaysInStep(v: EngineView, count: nat)
    requires AwaitingApply(v) && count <= |Unapplied(v.log)|
    ensures AppliedMatchesWal(AppliedUpTo(v, count).applied, v.wal)
  {
    var todo := Unapplied(v.log);
    var grown := v.applied + todo[..count];
    forall k | |v.applied| <= k < |grown| ensures grown[k] == LogEntry(k + 1, v.wal[k].payload) {
      assert grown[k] == v.log.entries[|v.log.entries| - |todo| + (k - |v.applied|)];
    }
  }

  /** Apply stops at its fault, or ends with everything at one index. */
  lemma ApplyKeepsSafe(v: EngineView, fault: PostFault)
    requires Safe(v) && AwaitingApply(v) && v.committedSeq == v.log.appliedIndex
    ensures Safe(ApplyAndPublish(v, fault).0)
    ensures ApplyAndPublish(v, fault).1 ==> Synced(ApplyAndPublish(v, fault).0)
  {
    AppliedStaysInStep(v, |Unapplied(v.log)|);
  }

  lemma CommitAdmittedKeepsInv(v: EngineView, admitted: seq<Item>, env: BatchEnv)
    requires Inv(v) && !v.wedged && FreshAndDistinct(v, admitted)
    ensures Inv(CommitAdmitted(v, admitted, env).0)
  {
    hide TxnsDistinct, Sequenced, StatusesNameRecords, HaveStatus, LogMatchesWal, FreshAndDistinct, StatusesInstalled;
    hide InstallAll, Contiguous, AppliedMatchesWal, ApplyAndPublish;
    AdmittedAreFresh(v, admitted);
    if PrepareError(v, admitted, env.recordFailsAt, env.flushFails).None? {
      var durable := Durable(v, admitted);
      var installed := InstallAll(durable, admitted, v.log.nextIndex, env.wallClock);
      DurableKeepsSafe(v, admitted);
      InstallAllInstalls(durable, admitted, v.log.nextIndex, env.wallClock);
      InstalledAwaitsApply(v, admitted, installed);
      SettleKeepsInv(durable, installed, env.fault);
    }
  }

  lemma SettleKeepsInv(durable: EngineView, installed: EngineView, fault: PostFault)
    requires Safe(durable)
    requires Safe(installed) && AwaitingApply(installed) && installed.committedSeq == installed.log.appliedIndex
    ensures Inv(Settle(durable, installed, fault).0)
  {
    ApplyKeepsSafe(installed, fault);
  }

  lemma CommitBatchKeepsInv(v: EngineView, items: seq<Item>, env: BatchEnv)
    requires Inv(v)
    ensures Inv(CommitBatch(v, items, env).0)
  {
    hide TxnsDistinct, Sequenced, StatusesNameRecords, HaveStatus, LogMatchesWal, AppliedMatchesWal, Contiguous;
    hide Admit, AllCovered, CommitAdmitted;
    var g := Admit(v, items);
    AdmissionMeaning(v, items);
    if g.Going? && !v.wedged {
      CommitAdmittedKeepsInv(v.(pending := g.pending), g.admitted, env);
    }
  }

  lemma CommitFreshKeepsInv(v: EngineView, item: Item, timestamp: U64, env: OneEnv)
    requires Inv(v) && !v.wedged && FreshAndDistinct(v, [item])
    ensures Inv(CommitFresh(v, item, timestamp, env).0)
  {
    if PrepareError(v, [item], if env.recordFails then Some(0) else None, env.flushFails).None? {
      var d := Durable(v, [item]);
      DurableKeepsSafe(v, [item]);
      var w := InstallOne(d, item, v.log.nextIndex, timestamp);
      OneStatusInstalled(v.status, item, v.log.nextIndex);
      InstalledAwaitsApply(v, [item], w);
      SettleKeepsInv(d, w, env.fault);
    }
  }

  lemma OneStatusInstalled(status: map<TxnId, Status>, item: Item, index: U64)
    ensures var after := status[item.txn := Committed(item.digest, index, item.affectedRows)];
      StatusesInstalled(status, after, [item], index)
  {
    forall t ensures Claims([item], t) <==> t == item.txn {
      if t == item.txn { assert [item][0].txn == t; }
    }
  }

  lemma CommitOneKeepsInv(v: EngineView, item: Item, timestamp: U64, env: OneEnv)
    requires Inv(v)
    ensures Inv(CommitOne(v, item, timestamp, env).0)
  {
    if ResolveRetry(v.status, item.txn, item.digest).Fresh? && !v.wedged && item.txn !in v.active {
      CommitFreshKeepsInv(v, item, timestamp, env);
    }
  }

  // ---------------------------------------------------------------- runs

  /** One thing that can happen to the engine between two observations. */
  datatype Call =
    | One(item: Item, timestamp: U64, oneEnv: OneEnv)
    | Batch(items: seq<Item>, batchEnv: BatchEnv)
    | Become(role: Role)
    | CompactAppliedPrefix
    | Elsewhere(pending: map<TxnId, Digest>, active: set<TxnId>)  // other admission activity

  ghost function Step(v: EngineView, call: Call): (w: EngineView)
    requires Inv(v)
    ensures Inv(w)
  {
    match call
    case One(item, timestamp, env) =>
      CommitOneKeepsInv(v, item, timestamp, env);
      CommitOne(v, item, timestamp, env).0
    case Batch(items, env) =>
      CommitBatchKeepsInv(v, items, env);
      CommitBatch(v, items, env).0
    case Become(role) => v.(log := v.log.(role := role))
    case CompactAppliedPrefix => v.(log := v.log.(entries := Unapplied(v.log)))
    case Elsewhere(pending, active) => v.(pending := pending, active := active)
  }

  /** A fresh engine; recovery may have left durably aborted identities behind. */
  ghost function Initial(aborted: map<TxnId, Digest>): (v: EngineView)
    ensures Inv(v)
  {
    EngineView(LogView(Leader, 1, 0, 0, []), [], 0, map t | t in aborted :: AbortedOrphan(aborted[t]), map[], 0,
               {}, map[], [], EMPTY_JOIN, 0, false)
  }

  ghost function Run(v: EngineView, calls: seq<Call>): (w: EngineView)
    requires Inv(v)
    ensures Inv(w)
    decreases |calls|
  {
    if calls == [] then v else Run(Step(v, calls[0]), calls[1..])
  }

  /** In every reachable state every visible index is durable, terminal and applied, every identity
      has at most one record, every terminal status names its own record; and unless the engine is
      wedged, log, WAL, state machine and visible boundary end at one index. */
  lemma ReachableStatesAreSafe(aborted: map<TxnId, Digest>, calls: seq<Call>)
    ensures var v := Run(Initial(aborted), calls);
      && VisibleSafe(v)
      && TxnsDistinct(v.wal)
      && StatusesNameRecords(v.wal, v.status)
      && (!v.wedged ==>
           && v.log.commitIndex == v.log.appliedIndex == v.committedSeq == |v.wal| == v.flushed == |v.applied|
           && v.join == Join(v.committedSeq + 1, {})
           && HaveStatus(v.wal, v.status, |v.wal|)
           && AppliedMatchesWal(v.applied, v.wal))
  {
    var v := Run(Initial(aborted), calls);
    assert Inv(v);
  }

  /** What `w` may never take back from `v`: durable records, applied entries, terminal statuses and
      visibility. */
  ghost predicate Extends(v: EngineView, w: EngineView)
  {
    && v.flushed <= |v.wal| && v.flushed <= w.flushed <= |w.wal|
    && v.wal[..v.flushed] <= w.wal && v.applied <= w.applied
    && (forall t :: t in v.status ==> t in w.status && w.status[t] == v.status[t])
    && v.committedSeq <= w.committedSeq
    && (v.wedged ==> w.wedged)
  }

  lemma FreshStatusesKeepOthers(before: map<TxnId, Status>, after: map<TxnId, Status>, items: seq<Item>, first: nat)
    requires StatusesInstalled(before, after, items, first)
    requires forall k :: 0 <= k < |items| ==> items[k].txn !in before
    ensures forall t :: t in before ==> t in after && after[t] == before[t]
  {
    forall t | t in before ensures !Claims(items, t) { }
  }

  lemma SettleExtends(v: EngineView, items: seq<Item>, installed: EngineView, fault: PostFault)
    requires Inv(v) && !v.wedged && FreshAndDistinct(v, items)
    requires v.log.nextIndex + |items| <= U64_MAX
    requires installed == Durable(v, items).(status := installed.status, timestamps := installed.timestamps,
                                             maxTimestamp := installed.maxTimestamp, pending := installed.pending)
    requires StatusesInstalled(v.status, installed.status, items, v.log.nextIndex)
    ensures Extends(v, Settle(Durable(v, items), installed, fault).0)
    ensures var (w, ok) := Settle(Durable(v, items), installed, fault);
      && w.wal == v.wal + Records(items, v.log.nextIndex)
      && w.flushed == |w.wal|
      && w.wedged == !ok
      && (ok ==> w.status == installed.status && w.committedSeq == |w.wal|
                 && w.applied == v.applied + Numbered(Payloads(items), v.log.nextIndex))
  {
    hide TxnsDistinct, Sequenced, StatusesNameRecords, HaveStatus, LogMatchesWal, FreshAndDistinct, StatusesInstalled;
    AdmittedAreFresh(v, items);
    FreshStatusesKeepOthers(v.status, installed.status, items, v.log.nextIndex);
    InstalledAwaitsApply(v, items, installed);
  }

  lemma ExtendsItself(v: EngineView)
    requires Inv(v)
    ensures Extends(v, v)
  {
  }

  lemma CommitOneExtends(v: EngineView, item: Item, timestamp: U64, env: OneEnv)
    requires Inv(v)
    ensures Extends(v, CommitOne(v, item, timestamp, env).0)
  {
    hide TxnsDistinct, Sequenced, StatusesNameRecords, HaveStatus, LogMatchesWal, AppliedMatchesWal, CommitFresh,
         Extends;
    ExtendsItself(v);
    if ResolveRetry(v.status, item.txn, item.digest).Fresh? && !v.wedged && item.txn !in v.active {
      CommitFreshExtends(v, item, timestamp, env);
    }
  }

  lemma CommitFreshExtends(v: EngineView, item: Item, timestamp: U64, env: OneEnv)
    requires Inv(v) && !v.wedged && item.txn !in v.status && item.txn !in v.active
    ensures Extends(v, CommitFresh(v, item, timestamp, env).0)
  {
    hide TxnsDistinct, Sequenced, StatusesNameRecords, HaveStatus, LogMatchesWal, AppliedMatchesWal, Settle, Extends;
    ExtendsItself(v);
    if PrepareError(v, [item], if env.recordFails then Some(0) else None, env.flushFails).None? {
      OneStatusInstalled(v.status, item, v.log.nextIndex);
      SettleExtends(v, [item], InstallOne(Durable(v, [item]), item, v.log.nextIndex, timestamp), env.fault);
    }
  }

  lemma CommitAdmittedExtends(v: EngineView, admitted: seq<Item>, env: BatchEnv)
    requires Inv(v) && !v.wedged && FreshAndDistinct(v, admitted)
    ensures Extends(v, CommitAdmitted(v, admitted, env).0)
  {
    hide TxnsDistinct, Sequenced, StatusesNameRecords, HaveStatus, LogMatchesWal, FreshAndDistinct, StatusesInstalled;
    hide InstallAll, Contiguous, AppliedMatchesWal, ApplyAndPublish;
    AdmittedAreFresh(v, admitted);
    if PrepareError(v, admitted, env.recordFailsAt, env.flushFails).None? {
      var durable := Durable(v, admitted);
      InstallAllInstalls(durable, admitted, v.log.nextIndex, env.wallClock);
      SettleExtends(v, admitted, InstallAll(durable, admitted, v.log.nextIndex, env.wallClock), env.fault);
    }
  }

  lemma CommitBatchExtends(v: EngineView, items: seq<Item>, env: BatchEnv)
    requires Inv(v)
    ensures Extends(v, CommitBatch(v, items, env).0)
  {
    hide TxnsDistinct, Sequenced, StatusesNameRecords, HaveStatus, LogMatchesWal, AppliedMatchesWal, Contiguous;
    hide Admit, AllCovered, CommitAdmitted;
    var g := Admit(v, items);
    AdmissionMeaning(v, items);
    if g.Going? && !v.wedged {
      var u := v.(pending := g.pending);
      CommitAdmittedExtends(u, g.admitted, env);
    }
  }

  /** No call, and no fault inside a call, ever takes back a durable record, a terminal status or
      visibility. */
  lemma {:induction false} RunsOnlyExtend(v: EngineView, calls: seq<Call>)
    requires Inv(v)
    ensures Extends(v, Run(v, calls))
    decreases |calls|
  {
    hide Step, Inv, Extends;
    if calls == [] {
      ExtendsItself(v);
    } else {
      var w := Step(v, calls[0]);
      StepExtends(v, calls[0]);
      RunsOnlyExtend(w, calls[1..]);
      ExtendsIsTransitive(v, w, Run(w, calls[1..]));
    }
  }

  lemma StepExtends(v: EngineView, call: Call)
    requires Inv(v)
    ensures Extends(v, Step(v, call))
  {
    hide CommitOne, CommitBatch;
    match call
    case One(item, timestamp, env) => CommitOneExtends(v, item, timestamp, env);
    case Batch(items, env) => CommitBatchExtends(v, items, env);
    case _ =>
  }

  lemma ExtendsIsTransitive(u: EngineView, v: EngineView, w: EngineView)
    requires Extends(u, v) && Extends(v, w)
    ensures Extends(u, w)
  {
    assert u.wal[..u.flushed] <= v.wal[..v.flushed];
  }

  // ---------------------------------------------------------------- acknowledgement

  /** The request is committed at `index`: its one record, its terminal status, and visible. */
  ghost predicate CommittedAt(v: EngineView, item: Item, index: nat)
  {
    && 1 <= index <= v.committedSeq && v.committedSeq <= |v.wal|
    && v.wal[index - 1].txn == item.txn
    && v.wal[index - 1].digest == item.digest
    && item.txn in v.status
    && v.status[item.txn].Committed?
    && v.status[item.txn].digest == item.digest
    && v.status[item.txn].index == index
  }

  /** The request's own bytes are durable and applied at `index`. */
  ghost predicate CarriedAt(v: EngineView, item: Item, index: nat)
  {
    && 1 <= index <= |v.wal| && index <= |v.applied|
    && v.wal[index - 1].txn == item.txn && v.wal[index - 1].index == index
    && v.wal[index - 1].payload == item.payload && v.wal[index - 1].digest == item.digest
    && v.applied[index - 1].index == index && v.applied[index - 1].payload == item.payload
  }

  /** A token is given for committed work only, and a new request's token for its own bytes. */
  lemma TokenMeansCommitted(v: EngineView, item: Item, timestamp: U64, env: OneEnv)
    requires Inv(v)
    ensures var (w, r) := CommitOne(v, item, timestamp, env);
      r.Token? ==> CommittedAt(w, item, r.index) && (item.txn !in v.status ==> CarriedAt(w, item, r.index))
  {
    hide TxnsDistinct, Sequenced, HaveStatus, LogMatchesWal, AppliedMatchesWal, Contiguous, ApplyAndPublish;
    var (w, r) := CommitOne(v, item, timestamp, env);
    if r.Token? && ResolveRetry(v.status, item.txn, item.digest).Fresh? {
      OneStatusInstalled(v.status, item, v.log.nextIndex);
      SettleExtends(v, [item], InstallOne(Durable(v, [item]), item, v.log.nextIndex, timestamp), env.fault);
      InstalledAreCommitted(v, w, [item]);
    }
  }

  /** In an accepted batch the item admitted at offset `k` takes the index `first + k`, with its bytes. */
  lemma AdmittedTakeConsecutiveIndices(v: EngineView, items: seq<Item>, env: BatchEnv)
    requires Inv(v) && items != []
    requires CommitBatch(v, items, env).1.BatchOk?
    ensures Admit(v, items).Going?
    ensures var admitted := Admit(v, items).admitted;
      forall k :: 0 <= k < |admitted| ==>
        && CommittedAt(CommitBatch(v, items, env).0, admitted[k], v.log.nextIndex + k)
        && CarriedAt(CommitBatch(v, items, env).0, admitted[k], v.log.nextIndex + k)
  {
    hide TxnsDistinct, Sequenced, StatusesNameRecords, HaveStatus, LogMatchesWal, AppliedMatchesWal, CommitAdmitted,
         CommittedAt, CarriedAt, AllCovered, ClaimsMatch, Admit;
    AdmissionMeaning(v, items);
    var g := Admit(v, items);
    if g.Going? && g.admitted != [] { AdmittedAreCommitted(v.(pending := g.pending), g.admitted, env); }
  }

  /** An accepted batch commits every one of its items, duplicates and retries included. */
  lemma AcceptedBatchMeansCommitted(v: EngineView, items: seq<Item>, env: BatchEnv, k: nat)
    requires Inv(v) && k < |items|
    requires CommitBatch(v, items, env).1.BatchOk?
    ensures var w := CommitBatch(v, items, env).0;
      items[k].txn in w.status && CommittedAt(w, items[k], StatusIndex(w, items[k].txn))
  {
    AdmissionMeaning(v, items);
    AdmittedTakeConsecutiveIndices(v, items, env);
    CommitBatchExtends(v, items, env);
    CoveredIsCommitted(v, CommitBatch(v, items, env).0, Admit(v, items).admitted, items[k]);
  }

  lemma CoveredIsCommitted(v: EngineView, w: EngineView, admitted: seq<Item>, item: Item)
    requires Inv(v) && Extends(v, w) && w.committedSeq <= |w.wal|
    requires Covered(v, admitted, item)
    requires forall k :: 0 <= k < |admitted| ==> CommittedAt(w, admitted[k], v.log.nextIndex + k)
    ensures item.txn in w.status && CommittedAt(w, item, StatusIndex(w, item.txn))
  {
    if j :| 0 <= j < |admitted| && admitted[j].txn == item.txn && admitted[j].digest == item.digest {
      assert CommittedAt(w, admitted[j], v.log.nextIndex + j);
    } else {
      var at := v.status[item.txn].index - 1;
      assert w.wal[at] == v.wal[..v.flushed][at];
    }
  }

  ghost function StatusIndex(v: EngineView, txn: TxnId): nat
    requires txn in v.status
  {
    if v.status[txn].Committed? then v.status[txn].index else 0
  }

  lemma AdmittedAreCommitted(v: EngineView, admitted: seq<Item>, env: BatchEnv)
    requires Inv(v) && !v.wedged && FreshAndDistinct(v, admitted) && admitted != []
    requires CommitAdmitted(v, admitted, env).1.BatchOk?
    ensures forall k :: 0 <= k < |admitted| ==>
      && CommittedAt(CommitAdmitted(v, admitted, env).0, admitted[k], v.log.nextIndex + k)
      && CarriedAt(CommitAdmitted(v, admitted, env).0, admitted[k], v.log.nextIndex + k)
  {
    hide TxnsDistinct, Sequenced, StatusesNameRecords, HaveStatus, LogMatchesWal, FreshAndDistinct, StatusesInstalled;
    hide InstallAll, Contiguous, AppliedMatchesWal, ApplyAndPublish;
    AdmittedAreFresh(v, admitted);
    var durable := Durable(v, admitted);
    var installed := InstallAll(durable, admitted, v.log.nextIndex, env.wallClock);
    InstallAllInstalls(durable, admitted, v.log.nextIndex, env.wallClock);
    SettleExtends(v, admitted, installed, env.fault);
    InstalledAreCommitted(v, Settle(durable, installed, env.fault).0, admitted);
  }

  lemma InstalledAreCommitted(v: EngineView, w: EngineView, items: seq<Item>)
    requires |v.wal| == |v.applied| && |v.wal| + 1 + |items| <= U64_MAX
    requires w.wal == v.wal + Records(items, |v.wal| + 1) && w.committedSeq == |w.wal|
    requires w.applied == v.applied + Numbered(Payloads(items), |v.wal| + 1)
    requires StatusesInstalled(v.status, w.status, items, |v.wal| + 1)
    ensures forall k :: 0 <= k < |items| ==>
      CommittedAt(w, items[k], |v.wal| + 1 + k) && CarriedAt(w, items[k], |v.wal| + 1 + k)
  {
    forall k | 0 <= k < |items|
      ensures CommittedAt(w, items[k], |v.wal| + 1 + k) && CarriedAt(w, items[k], |v.wal| + 1 + k)
    {
      assert w.wal[|v.wal| + k] == Records(items, |v.wal| + 1)[k];
      assert w.applied[|v.applied| + k] == Numbered(Payloads(items), |v.wal| + 1)[k];
    }
  }

  /** Acknowledged work stays: after any further calls and faults the request still has its one
      record at the same index, still visible, and still with its own bytes, logged and applied. */
  lemma CommittedIsForever(v: EngineView, item: Item, index: nat, calls: seq<Call>)
    requires Inv(v) && CommittedAt(v, item, index)
    ensures CommittedAt(Run(v, calls), item, index)
    ensures CarriedAt(v, item, index) ==> CarriedAt(Run(v, calls), item, index)
    ensures forall k :: 0 <= k < |Run(v, calls).wal| && Run(v, calls).wal[k].txn == item.txn ==> k == index - 1
  {
    RunsOnlyExtend(v, calls);
    var w := Run(v, calls);
    assert w.wal[index - 1] == v.wal[..v.flushed][index - 1];
  }

  /** Exactly once.  Presenting a committed identity again, alone, changes nothing: the same request
      gets the original token, a different one an error. */
  lemma RetryChangesNothing(v: EngineView, item: Item, timestamp: U64, env: OneEnv)
    requires Inv(v) && item.txn in v.status
    ensures var (w, r) := CommitOne(v, item, timestamp, env);
      && w == v
      && (r.Token? ==> CommittedAt(v, item, r.index))
      && (v.status[item.txn].digest != item.digest ==> r.Failed?)
      && (!env.snapshotActive && !env.payloadRejected && !v.wedged && v.log.role == Leader && !env.laneGuard
          && v.status[item.txn].Committed? && v.status[item.txn].digest == item.digest
          ==> r == Token(v.status[item.txn].index))
  {
  }

  /** The identity's records in the WAL, counted. */
  ghost function RecordCount(wal: seq<WalRecord>, txn: TxnId): nat
  {
    if wal == [] then 0
    else RecordCount(wal[..|wal| - 1], txn) + (if wal[|wal| - 1].txn == txn then 1 else 0)
  }

  lemma {:induction false} DistinctMeansAtMostOnce(wal: seq<WalRecord>, txn: TxnId)
    requires TxnsDistinct(wal)
    ensures RecordCount(wal, txn) <= 1
    ensures RecordCount(wal, txn) == 1 <==> exists k :: 0 <= k < |wal| && wal[k].txn == txn
  {
    if wal != [] {
      var prior := wal[..|wal| - 1];
      DistinctMeansAtMostOnce(prior, txn);
      if k :| 0 <= k < |prior| && prior[k].txn == txn { assert wal[k].txn == txn; }
    }
  }

  /** Over any run each identity has at most one record, and exactly one once it has committed. */
  lemma ExactlyOnce(aborted: map<TxnId, Digest>, calls: seq<Call>, txn: TxnId)
    ensures var v := Run(Initial(aborted), calls);
      && RecordCount(v.wal, txn) <= 1
      && (txn in v.status && v.status[txn].Committed? ==>
            RecordCount(v.wal, txn) == 1 && v.wal[v.status[txn].index - 1].txn == txn)
      && (!v.wedged && RecordCount(v.wal, txn) == 1 ==> txn in v.status && v.status[txn].Committed?)
  {
    hide Run, Sequenced, LogMatchesWal, AppliedMatchesWal, Contiguous, RecordCount, TxnsDistinct;
    var v := Run(Initial(aborted), calls);
    DistinctMeansAtMostOnce(v.wal, txn);
    if !v.wedged && RecordCount(v.wal, txn) == 1 {
      var k :| 0 <= k < |v.wal| && v.wal[k].txn == txn;
      assert HasStatus(v.wal, v.status, k);
    }
  }

  // ---------------------------------------------------------------- batches that fail

  /** Everything but the pending claims of already-committed retries. */
  ghost predicate SameButReleasedClaims(v: EngineView, w: EngineView)
  {
    w == v.(pending := w.pending) && ReleasedOnlyCommitted(v, w.pending)
  }

  /** A batch either does not touch the log, the WAL, statuses, timestamps or visibility at all, or
      it made its records durable.  A requeueable failure is always of the first kind, and a failure
      of the second kind always wedges the engine and is never requeueable. */
  lemma FailedBatchIsCleanOrWedged(v: EngineView, items: seq<Item>, env: BatchEnv)
    requires Inv(v)
    ensures var (w, r) := CommitBatch(v, items, env); r.BatchFailed? ==>
      && (r.requeue ==> SameButReleasedClaims(v, w))
      && (SameButReleasedClaims(v, w) <==> w.wal == v.wal)
      && (w.wal != v.wal ==> !r.requeue && w.wedged && !v.wedged && w.flushed == |w.wal| && v.wal <= w.wal)
  {
    hide TxnsDistinct, Sequenced, StatusesNameRecords, HaveStatus, LogMatchesWal, AppliedMatchesWal, Contiguous;
    hide AllCovered, CommitAdmitted;
    var g := Admit(v, items);
    AdmissionReleasesOnlyCommitted(v, items);
    AdmissionMeaning(v, items);
    if g.Going? && !v.wedged {
      FailedAdmittedIsCleanOrWedged(v.(pending := g.pending), g.admitted, env);
    }
  }

  lemma FailedAdmittedIsCleanOrWedged(v: EngineView, admitted: seq<Item>, env: BatchEnv)
    requires Inv(v) && !v.wedged && FreshAndDistinct(v, admitted)
    ensures var (w, r) := CommitAdmitted(v, admitted, env); r.BatchFailed? ==>
      || w == v
      || (!r.requeue && w.wedged && w.flushed == |w.wal| && |v.wal| < |w.wal| && v.wal <= w.wal)
  {
    hide TxnsDistinct, Sequenced, StatusesNameRecords, HaveStatus, LogMatchesWal, FreshAndDistinct, StatusesInstalled;
    hide InstallAll, Contiguous, AppliedMatchesWal, ApplyAndPublish;
    AdmittedAreFresh(v, admitted);
    if admitted != [] && PrepareError(v, admitted, env.recordFailsAt, env.flushFails).None? {
      var durable := Durable(v, admitted);
      InstallAllInstalls(durable, admitted, v.log.nextIndex, env.wallClock);
      SettleExtends(v, admitted, InstallAll(durable, admitted, v.log.nextIndex, env.wallClock), env.fault);
    }
  }

  /** Reuse of a committed identity for a different request, or two different requests under one
      identity inside the batch, adds nothing. */
  lemma ConflictingBatchAddsNothing(v: EngineView, items: seq<Item>, env: BatchEnv, j: nat, k: nat)
    requires Inv(v) && j < |items| && k < |items|
    requires || (items[j].txn == items[k].txn && items[j].digest != items[k].digest)
             || (items[k].txn in v.status && v.status[items[k].txn].digest != items[k].digest)
    ensures var (w, r) := CommitBatch(v, items, env); r.BatchFailed? && w.wal == v.wal && w.status == v.status
  {
    var g := Admit(v, items);
    AdmissionMeaning(v, items);
    if g.Going? {
      assert false;
    }
  }

  // ---------------------------------------------------------------- timestamps inside a batch

  /** The running maximum right after item `k` has been stamped. */
  ghost function Stamp(v: EngineView, items: seq<Item>, first: nat, wallClock: U64, k: nat): U64
    requires first + |items| <= U64_MAX && k < |items|
  {
    InstallAll(v, items[..k + 1], first, wallClock).maxTimestamp
  }

  /** Inside one batch timestamps strictly increase, above everything recorded before, for as long
      as the counter has not saturated. */
  lemma BatchTimestampsIncrease(v: EngineView, items: seq<Item>, first: nat, wallClock: U64, j: nat, k: nat)
    requires first + |items| <= U64_MAX
    requires forall a, b :: 0 <= a < b < |items| ==> items[a].txn != items[b].txn
    requires j < k < |items|
    ensures var stamps := InstallAll(v, items, first, wallClock).timestamps;
      && items[j].txn in stamps && items[k].txn in stamps
      && (v.maxTimestamp < stamps[items[j].txn] || v.maxTimestamp == U64_MAX)
      && (stamps[items[j].txn] < stamps[items[k].txn] || stamps[items[j].txn] == U64_MAX)
  {
    StampIsKept(v, items, first, wallClock, j);
    StampIsKept(v, items, first, wallClock, k);
    StampsGrow(v, items, first, wallClock, j, k);
    StampsExceedPrior(v, items, first, wallClock, j);
  }

  /** Each stamp is the wall clock, or one above the highest stamp so far when the clock lags; the last
      one is the new maximum, and no other transaction's stamp changes. */
  lemma BatchTimestampsAreTight(v: EngineView, items: seq<Item>, first: nat, wallClock: U64, k: nat)
    requires first + |items| <= U64_MAX && k < |items|
    requires forall a, b :: 0 <= a < b < |items| ==> items[a].txn != items[b].txn
    ensures var w := InstallAll(v, items, first, wallClock);
      && items[k].txn in w.timestamps && (k > 0 ==> items[k - 1].txn in w.timestamps)
      && (k == |items| - 1 ==> w.maxTimestamp == w.timestamps[items[k].txn])
      && var stamp := w.timestamps[items[k].txn];
         var highest := if k == 0 then v.maxTimestamp else w.timestamps[items[k - 1].txn];
         wallClock <= stamp && highest <= stamp && (stamp == wallClock || stamp == highest + 1 || stamp == U64_MAX)
    ensures var w := InstallAll(v, items, first, wallClock);
      forall t :: !Claims(items, t) ==>
        (t in w.timestamps <==> t in v.timestamps) && (t in v.timestamps ==> w.timestamps[t] == v.timestamps[t])
  {
    hide InstallAll, Stamp;
    StampIsKept(v, items, first, wallClock, k);
    if k > 0 { StampIsKept(v, items, first, wallClock, k - 1); }
    StampIsTight(v, items, first, wallClock, k);
    OtherStampsStay(v, items, first, wallClock);
  }

  lemma StampIsTight(v: EngineView, items: seq<Item>, first: nat, wallClock: U64, k: nat)
    requires first + |items| <= U64_MAX && k < |items|
    ensures var stamp := Stamp(v, items, first, wallClock, k);
      var highest := if k == 0 then v.maxTimestamp else Stamp(v, items, first, wallClock, k - 1);
      wallClock <= stamp && highest <= stamp && (stamp == wallClock || stamp == highest + 1 || stamp == U64_MAX)
    ensures k == |items| - 1 ==>
      InstallAll(v, items, first, wallClock).maxTimestamp == Stamp(v, items, first, wallClock, k)
  {
    assert items[..k + 1][..k] == items[..k];
    if k == 0 { assert InstallAll(v, items[..k], first, wallClock) == v; }
    if k == |items| - 1 { assert items[..k + 1] == items; }
  }

  lemma {:induction false} OtherStampsStay(v: EngineView, items: seq<Item>, first: nat, wallClock: U64)
    requires first + |items| <= U64_MAX
    ensures var w := InstallAll(v, items, first, wallClock);
      forall t :: !Claims(items, t) ==>
        (t in w.timestamps <==> t in v.timestamps) && (t in v.timestamps ==> w.timestamps[t] == v.timestamps[t])
  {
    if items != [] {
      var n := |items| - 1;
      OtherStampsStay(v, items[..n], first, wallClock);
      forall t | !Claims(items, t) ensures t != items[n].txn && !Claims(items[..n], t) {
        assert items[n].txn != t;
        assert forall k :: 0 <= k < n ==> items[..n][k].txn == items[k].txn;
      }
    }
  }

  lemma {:induction false} StampsExceedPrior(v: EngineView, items: seq<Item>, first: nat, wallClock: U64, k: nat)
    requires first + |items| <= U64_MAX && k < |items|
    ensures v.maxTimestamp < Stamp(v, items, first, wallClock, k) || v.maxTimestamp == U64_MAX
    decreases k
  {
    assert items[..k + 1][..k] == items[..k];
    if k == 0 {
      assert InstallAll(v, items[..k], first, wallClock) == v;
    } else {
      StampsExceedPrior(v, items, first, wallClock, k - 1);
    }
  }

  lemma {:induction false} StampsGrow(v: EngineView, items: seq<Item>, first: nat, wallClock: U64, j: nat, k: nat)
    requires first + |items| <= U64_MAX && j < k < |items|
    ensures Stamp(v, items, first, wallClock, j) < Stamp(v, items, first, wallClock, k)
         || Stamp(v, items, first, wallClock, j) == U64_MAX
    decreases k
  {
    assert items[..k + 1][..k] == items[..k];
    if j + 1 < k { StampsGrow(v, items, first, wallClock, j, k - 1); }
  }

  lemma {:induction false} StampIsKept(v: EngineView, items: seq<Item>, first: nat, wallClock: U64, k: nat)
    requires first + |items| <= U64_MAX && k < |items|
    requires forall a, b :: 0 <= a < b < |items| ==> items[a].txn != items[b].txn
    ensures var w := InstallAll(v, items, first, wallClock);
      && items[k].txn in w.timestamps
      && w.timestamps[items[k].txn] == Stamp(v, items, first, wallClock, k)
    decreases |items|
  {
    if k + 1 < |items| {
      var prior := items[..|items| - 1];
      StampIsKept(v, prior, first, wallClock, k);
      assert prior[..k + 1] == items[..k + 1];
    } else {
      assert items[..k + 1] == items;
    }
  }
}
