/**
 What the two commit paths of crates/engine/src/engine_commit.rs do to the engine, as functions of
 the engine's state: the serialized path (one transaction) and the batch path (one flush group).
 */
module CommitSpec {
  import opened Primitives
  import opened Replication
  import opened Publication

  /** One request: the durable transaction identity, its bytes, and the digest that names them. */
  datatype Item = Item(txn: TxnId, payload: Payload, digest: Digest, affectedRows: U64)

  datatype Status =
    | Committed(digest: Digest, index: U64, affectedRows: U64)
    | AbortedOrphan(digest: Digest)

  datatype EngineView = EngineView(
    log: LogView,
    wal: seq<WalRecord>,
    flushed: nat,
    status: map<TxnId, Status>,
    timestamps: map<TxnId, U64>,
    maxTimestamp: U64,
    active: set<TxnId>,
    pending: map<TxnId, Digest>,
    applied: seq<LogEntry>,
    join: Join,
    committedSeq: U64,
    wedged: bool)

  datatype Error =
    | Refused | Unavailable | NotLeader
    | DifferentRequest | DurablyAborted | PendingClaim | OwnedByTransaction
    | NotYetPublished
    | ProposalFailed | RecordFailed | FlushFailed
    | Indeterminate

  /** A fault after the flush has made the records durable. */
  datatype PostFault = NoFault | WaitFails | ApplyFailsAt(entry: nat) | PublishPreparationFails

  // ---------------------------------------------------------------- invariants

  ghost predicate TxnsDistinct(wal: seq<WalRecord>)
  {
    forall j, k :: 0 <= j < k < |wal| ==> wal[j].txn != wal[k].txn
  }

  /** A record's position in the WAL is its commit index. */
  ghost predicate Sequenced(wal: seq<WalRecord>)
  {
    forall k :: 0 <= k < |wal| ==> wal[k].index == k + 1
  }

  /** A terminal claim always names its own record. */
  ghost predicate StatusesNameRecords(wal: seq<WalRecord>, status: map<TxnId, Status>)
  {
    forall t :: t in status && status[t].Committed? ==>
      && 1 <= status[t].index <= |wal|
      && wal[status[t].index - 1].txn == t
      && wal[status[t].index - 1].digest == status[t].digest
  }

  /** The record at position `k` has its terminal status. */
  ghost predicate HasStatus(wal: seq<WalRecord>, status: map<TxnId, Status>, k: nat)
    requires k < |wal|
  {
    && wal[k].txn in status
    && status[wal[k].txn].Committed?
    && status[wal[k].txn].index == k + 1
  }

  ghost predicate HaveStatus(wal: seq<WalRecord>, status: map<TxnId, Status>, count: nat)
    requires count <= |wal|
  {
    forall k :: 0 <= k < count ==> HasStatus(wal, status, k)
  }

  /** Every visible index has a durable record, an installed terminal status, and is applied. */
  ghost predicate VisibleSafe(v: EngineView)
  {
    && v.committedSeq <= v.flushed <= |v.wal|
    && v.committedSeq <= v.log.appliedIndex
    && Sequenced(v.wal)
    && HaveStatus(v.wal, v.status, v.committedSeq)
  }

  /** Holds in every state, wedged or not. */
  ghost predicate Safe(v: EngineView)
  {
    VisibleSafe(v) && TxnsDistinct(v.wal) && StatusesNameRecords(v.wal, v.status) && Contiguous(v.log)
  }

  ghost predicate LogMatchesWal(entries: seq<LogEntry>, wal: seq<WalRecord>)
  {
    forall k :: 0 <= k < |entries| ==>
      1 <= entries[k].index <= |wal| && entries[k].payload == wal[entries[k].index - 1].payload
  }

  /** The state machine consumed exactly the durable payloads, in commit order. */
  ghost predicate AppliedMatchesWal(applied: seq<LogEntry>, wal: seq<WalRecord>)
  {
    && |applied| <= |wal|
    && forall k :: 0 <= k < |applied| ==> applied[k].index == k + 1 && applied[k].payload == wal[k].payload
  }

  /** Everything durable has its status; the applied and published prefixes coincide. */
  ghost predicate AwaitingApply(v: EngineView)
  {
    && Contiguous(v.log)
    && v.log.commitIndex == |v.wal| == v.flushed
    && v.log.nextIndex == |v.wal| + 1
    && v.log.appliedIndex == |v.applied|
    && HaveStatus(v.wal, v.status, |v.wal|)
    && AppliedMatchesWal(v.applied, v.wal)
    && LogMatchesWal(v.log.entries, v.wal)
  }

  /** Between calls on an unwedged engine the log, the WAL, the applied index and the visible
      boundary all end at the same index. */
  ghost predicate Synced(v: EngineView)
  {
    && AwaitingApply(v)
    && v.log.appliedIndex == v.log.commitIndex == v.committedSeq
    && v.join == Join(v.log.nextIndex, {})
  }

  ghost predicate Inv(v: EngineView)
  {
    Safe(v) && (!v.wedged ==> Synced(v))
  }

  // ---------------------------------------------------------------- retries and claims

  datatype Retry = Fresh | AlreadyAt(index: U64) | Conflict(error: Error)

  function ResolveRetry(status: map<TxnId, Status>, txn: TxnId, digest: Digest): Retry
  {
    if txn !in status then Fresh
    else if status[txn].digest != digest then Conflict(DifferentRequest)
    else match status[txn]
      case Committed(_, index, _) => AlreadyAt(index)
      case AbortedOrphan(_) => Conflict(DurablyAborted)
  }

  /** A pending claim is released only by the exact request that holds it. */
  function ReleaseClaim(pending: map<TxnId, Digest>, item: Item): (released: map<TxnId, Digest>)
    ensures released.Keys <= pending.Keys
    ensures forall t :: t in released ==> released[t] == pending[t]
  {
    if item.txn in pending && pending[item.txn] == item.digest then pending - {item.txn} else pending
  }

  datatype Admission =
    | Going(pending: map<TxnId, Digest>, claims: map<TxnId, Digest>, admitted: seq<Item>)
    | Stopped(pending: map<TxnId, Digest>, error: Error)

  /** Resolve one more item of a batch against the durable, pending, active and in-batch claims. */
  function AdmitOne(v: EngineView, g: Admission, item: Item): Admission
    requires g.Going?
  {
    match ResolveRetry(v.status, item.txn, item.digest)
    case AlreadyAt(index) =>
      if index <= v.committedSeq then Going(ReleaseClaim(g.pending, item), g.claims, g.admitted)
      else Stopped(g.pending, NotYetPublished)
    case Conflict(error) => Stopped(g.pending, error)
    case Fresh =>
      if item.txn in g.pending && g.pending[item.txn] != item.digest then Stopped(g.pending, DifferentRequest)
      else if item.txn in v.active then Stopped(g.pending, OwnedByTransaction)
      else if item.txn !in g.claims then
        Going(g.pending, g.claims[item.txn := item.digest], g.admitted + [item])
      else if g.claims[item.txn] == item.digest then g
      else Stopped(g.pending, DifferentRequest)
  }

  function Admit(v: EngineView, items: seq<Item>): Admission
  {
    if items == [] then Going(v.pending, map[], [])
    else
      var g := Admit(v, items[..|items| - 1]);
      if g.Stopped? then g else AdmitOne(v, g, items[|items| - 1])
  }

  /** `item` needs no further work once the batch commits: it already is committed and visible, or
      some admitted item carries the same identity and request. */
  ghost predicate Covered(v: EngineView, admitted: seq<Item>, item: Item)
  {
    || (item.txn in v.status && v.status[item.txn].Committed?
        && v.status[item.txn].digest == item.digest && v.status[item.txn].index <= v.committedSeq)
    || (exists k :: 0 <= k < |admitted| && admitted[k].txn == item.txn && admitted[k].digest == item.digest)
  }

  ghost predicate FreshAndDistinct(v: EngineView, admitted: seq<Item>)
  {
    && (forall k :: 0 <= k < |admitted| ==> admitted[k].txn !in v.status && admitted[k].txn !in v.active)
    && (forall j, k :: 0 <= j < k < |admitted| ==> admitted[j].txn != admitted[k].txn)
  }

  /** The in-batch claim table lists exactly the admitted identities with their requests. */
  ghost predicate ClaimsMatch(claims: map<TxnId, Digest>, admitted: seq<Item>)
  {
    && (forall k :: 0 <= k < |admitted| ==> admitted[k].txn in claims && claims[admitted[k].txn] == admitted[k].digest)
    && (forall t :: t in claims ==> Claims(admitted, t))
  }

  ghost predicate Claims(admitted: seq<Item>, t: TxnId)
  {
    exists k :: 0 <= k < |admitted| && admitted[k].txn == t
  }

  ghost predicate AllCovered(v: EngineView, admitted: seq<Item>, items: seq<Item>)
  {
    forall k :: 0 <= k < |items| ==> Covered(v, admitted, items[k])
  }

  ghost predicate Accounted(v: EngineView, g: Admission, items: seq<Item>)
    requires g.Going?
  {
    && FreshAndDistinct(v, g.admitted)
    && ClaimsMatch(g.claims, g.admitted)
    && (forall k :: 0 <= k < |g.admitted| ==> g.admitted[k] in items)
    && AllCovered(v, g.admitted, items)
  }

  /** The only claims that may disappear belong to transactions already committed and visible. */
  ghost predicate ReleasedOnlyCommitted(v: EngineView, pending: map<TxnId, Digest>)
  {
    && (forall t :: t in pending ==> t in v.pending && pending[t] == v.pending[t])
    && (forall t :: t in v.pending && t !in pending ==>
          t in v.status && v.status[t].Committed? && v.status[t].index <= v.committedSeq)
  }

  lemma {:induction false} AdmissionReleasesOnlyCommitted(v: EngineView, items: seq<Item>)
    ensures ReleasedOnlyCommitted(v, Admit(v, items).pending)
  {
    if items != [] {
      AdmissionReleasesOnlyCommitted(v, items[..|items| - 1]);
    }
  }

  /** Admission keeps one item for each new identity, drops nothing else, and invents nothing. */
  lemma {:induction false} AdmissionMeaning(v: EngineView, items: seq<Item>)
    ensures var g := Admit(v, items); g.Going? ==> Accounted(v, g, items)
  {
    if items != [] {
      var prior := items[..|items| - 1];
      var item := items[|items| - 1];
      AdmissionMeaning(v, prior);
      var g := Admit(v, prior);
      assert items == prior + [item];
      if g.Going? && AdmitOne(v, g, item).Going? {
        AdmitOneMeaning(v, prior, g, item);
        assert Admit(v, items) == AdmitOne(v, g, item);
      }
    }
  }

  lemma CoverageGrows(v: EngineView, admitted: seq<Item>, more: seq<Item>, items: seq<Item>)
    requires AllCovered(v, admitted, items)
    ensures AllCovered(v, admitted + more, items)
  {
    forall k | 0 <= k < |items| ensures Covered(v, admitted + more, items[k]) {
      assert Covered(v, admitted, items[k]);
      if j :| 0 <= j < |admitted| && admitted[j].txn == items[k].txn && admitted[j].digest == items[k].digest {
        assert (admitted + more)[j] == admitted[j];
      }
    }
  }

  lemma ClaimsGrow(claims: map<TxnId, Digest>, admitted: seq<Item>, item: Item)
    requires ClaimsMatch(claims, admitted) && item.txn !in claims
    ensures ClaimsMatch(claims[item.txn := item.digest], admitted + [item])
  {
    var longer := admitted + [item];
    assert longer[|admitted|] == item;
    forall t | t in claims ensures Claims(longer, t) {
      var k :| 0 <= k < |admitted| && admitted[k].txn == t;
      assert longer[k].txn == t;
    }
  }

  lemma RepeatIsCovered(v: EngineView, g: Admission, item: Item)
    requires g.Going? && ClaimsMatch(g.claims, g.admitted)
    requires AdmitOne(v, g, item).Going? && AdmitOne(v, g, item).admitted == g.admitted
    ensures Covered(v, g.admitted, item)
  {
    if item.txn !in v.status { assert Claims(g.admitted, item.txn); }
  }

  lemma AdmitOneMeaning(v: EngineView, prior: seq<Item>, g: Admission, item: Item)
    requires g.Going? && AdmitOne(v, g, item).Going?
    requires Accounted(v, g, prior)
    ensures Accounted(v, AdmitOne(v, g, item), prior + [item])
  {
    hide ClaimsMatch, FreshAndDistinct, AllCovered, Covered;
    var h := AdmitOne(v, g, item);
    if h.admitted == g.admitted {
      RepeatIsCovered(v, g, item);
      OneMoreCovered(v, g.admitted, prior, item);
    } else {
      ClaimsGrow(g.claims, g.admitted, item);
      CoverageGrows(v, g.admitted, [item], prior);
      NewcomerIsCovered(v, g.admitted, item);
      OneMoreCovered(v, h.admitted, prior, item);
      NewcomerIsFresh(v, g, item);
    }
  }

  lemma OneMoreCovered(v: EngineView, admitted: seq<Item>, prior: seq<Item>, item: Item)
    requires AllCovered(v, admitted, prior) && Covered(v, admitted, item)
    ensures AllCovered(v, admitted, prior + [item])
  {
    hide Covered;
  }

  lemma NewcomerIsCovered(v: EngineView, admitted: seq<Item>, item: Item)
    ensures Covered(v, admitted + [item], item)
  {
    assert (admitted + [item])[|admitted|] == item;
  }

  lemma NewcomerIsFresh(v: EngineView, g: Admission, item: Item)
    requires g.Going? && ClaimsMatch(g.claims, g.admitted) && FreshAndDistinct(v, g.admitted)
    requires item.txn !in v.status && item.txn !in v.active && item.txn !in g.claims
    ensures FreshAndDistinct(v, g.admitted + [item])
  {
  }

  // ---------------------------------------------------------------- durability

  function Payloads(items: seq<Item>): (ps: seq<Payload>)
    ensures |ps| == |items|
    ensures forall k :: 0 <= k < |ps| ==> ps[k] == items[k].payload
  {
    seq(|items|, k requires 0 <= k < |items| => items[k].payload)
  }

  function Records(items: seq<Item>, first: nat): (rs: seq<WalRecord>)
    requires first + |items| <= U64_MAX
    ensures |rs| == |items|
    ensures forall k :: 0 <= k < |rs| ==>
      rs[k] == WalRecord(items[k].txn, first + k, items[k].payload, items[k].digest)
  {
    seq(|items|, k requires 0 <= k < |items| =>
      WalRecord(items[k].txn, first + k, items[k].payload, items[k].digest))
  }

  /** Proposed and appended, with the watermark not yet moved. */
  ghost function Appended(v: EngineView, items: seq<Item>): EngineView
    requires Contiguous(v.log) && v.log.nextIndex + |items| <= U64_MAX
  {
    v.(log := Proposed(v.log, Payloads(items)), wal := v.wal + Records(items, v.log.nextIndex))
  }

  ghost function Durable(v: EngineView, items: seq<Item>): EngineView
    requires Contiguous(v.log) && v.log.nextIndex + |items| <= U64_MAX
  {
    Appended(v, items).(flushed := |v.wal| + |items|)
  }

  /** How many more indices the log can issue. */
  ghost function Room(v: EngineView): nat
  {
    U64_MAX - v.log.nextIndex
  }

  /** The clean failure, if any, of proposing, recording and flushing `items` in turn. */
  ghost function PrepareError(v: EngineView, items: seq<Item>, recordFailsAt: Option<nat>, flushFails: bool)
    : Option<Error>
  {
    if recordFailsAt.Some? && recordFailsAt.value < |items| && recordFailsAt.value < Room(v) then Some(RecordFailed)
    else if Room(v) < |items| then Some(ProposalFailed)
    else if flushFails then Some(FlushFailed)
    else None
  }

  // ---------------------------------------------------------------- statuses and timestamps

  function Max(a: U64, b: U64): U64 { if a < b then b else a }

  function InstallOne(v: EngineView, item: Item, index: U64, timestamp: U64): EngineView
  {
    v.(status := v.status[item.txn := Committed(item.digest, index, item.affectedRows)],
       timestamps := v.timestamps[item.txn := timestamp],
       maxTimestamp := Max(v.maxTimestamp, timestamp),
       pending := ReleaseClaim(v.pending, item))
  }

  function NextTimestamp(v: EngineView, wallClock: U64): U64
  {
    Max(wallClock, SaturatingIncrement(v.maxTimestamp))
  }

  /** Statuses at `first + offset`, with strictly increasing timestamps until they saturate. */
  function InstallAll(v: EngineView, items: seq<Item>, first: nat, wallClock: U64): (w: EngineView)
    requires first + |items| <= U64_MAX
    ensures w == v.(status := w.status, timestamps := w.timestamps, maxTimestamp := w.maxTimestamp,
                    pending := w.pending)
  {
    if items == [] then v
    else
      var n := |items| - 1;
      var before := InstallAll(v, items[..n], first, wallClock);
      InstallOne(before, items[n], first + n, NextTimestamp(before, wallClock))
  }

  // ---------------------------------------------------------------- apply and publish

  ghost function Unapplied(log: LogView): seq<LogEntry>
    requires Contiguous(log)
  {
    log.entries[|log.entries| - (log.commitIndex - log.appliedIndex)..]
  }

  ghost function AppliedUpTo(v: EngineView, count: nat): EngineView
    requires Contiguous(v.log) && count <= |Unapplied(v.log)|
  {
    v.(applied := v.applied + Unapplied(v.log)[..count],
       log := v.log.(appliedIndex := v.log.appliedIndex + count))
  }

  ghost function ApplyAndPublish(v: EngineView, fault: PostFault): (EngineView, bool)
    requires Contiguous(v.log)
  {
    var n := |Unapplied(v.log)|;
    if fault.ApplyFailsAt? && fault.entry < n then (AppliedUpTo(v, fault.entry), false)
    else if fault.PublishPreparationFails? then (AppliedUpTo(v, n), false)
    else
      (AppliedUpTo(v, n).(join := Join(v.log.nextIndex, {}), committedSeq := v.log.commitIndex), true)
  }

  function Wedged(v: EngineView): EngineView { v.(wedged := true) }

  /** Everything after the flush: a failure at any point wedges the engine. */
  ghost function Settle(durable: EngineView, installed: EngineView, fault: PostFault): (EngineView, bool)
    requires Contiguous(installed.log)
  {
    if fault.WaitFails? then (Wedged(durable), false)
    else
      var (w, ok) := ApplyAndPublish(installed, fault);
      (if ok then w else Wedged(w), ok)
  }

  // ---------------------------------------------------------------- the serialized path

  datatype OneEnv = OneEnv(
    snapshotActive: bool, payloadRejected: bool, laneGuard: bool, tableAccessFails: bool,
    catalogChanged: bool, preflightFails: bool, outcomeFails: bool,
    recordFails: bool, flushFails: bool, fault: PostFault)

  datatype OneResult = Token(index: U64) | Failed(error: Error)

  ghost function CommitOne(v: EngineView, item: Item, timestamp: U64, env: OneEnv): (EngineView, OneResult)
    requires Contiguous(v.log)
  {
    if env.snapshotActive || env.payloadRejected then (v, Failed(Refused))
    else if v.wedged then (v, Failed(Unavailable))
    else if v.log.role != Leader then (v, Failed(NotLeader))
    else if env.laneGuard then (v, Failed(Refused))
    else match ResolveRetry(v.status, item.txn, item.digest)
      case AlreadyAt(index) => (v, Token(index))
      case Conflict(error) => (v, Failed(error))
      case Fresh =>
        if env.tableAccessFails || env.catalogChanged then (v, Failed(Refused))
        else if item.txn in v.pending then
          (v, Failed(if v.pending[item.txn] == item.digest then PendingClaim else DifferentRequest))
        else if item.txn in v.active then (v, Failed(OwnedByTransaction))
        else if env.preflightFails || env.outcomeFails then (v, Failed(Refused))
        else CommitFresh(v, item, timestamp, env)
  }

  ghost function CommitFresh(v: EngineView, item: Item, timestamp: U64, env: OneEnv): (EngineView, OneResult)
    requires Contiguous(v.log)
  {
    var clean := PrepareError(v, [item], if env.recordFails then Some(0) else None, env.flushFails);
    if clean.Some? then (v, Failed(clean.value))
    else
      var index := v.log.nextIndex;
      var durable := Durable(v, [item]);
      var (w, ok) := Settle(durable, InstallOne(durable, item, index, timestamp), env.fault);
      (w, if ok then Token(index) else Failed(Indeterminate))
  }

  // ---------------------------------------------------------------- the batch path

  datatype BatchEnv = BatchEnv(
    payloadRejected: bool, laneGuard: bool, wallClock: U64, tableAccessFails: bool, outcomesFail: bool,
    recordFailsAt: Option<nat>, flushFails: bool, fault: PostFault)

  datatype BatchResult = BatchOk | BatchFailed(requeue: bool, error: Error)

  ghost function CommitBatch(v: EngineView, items: seq<Item>, env: BatchEnv): (EngineView, BatchResult)
    requires Contiguous(v.log)
  {
    if items == [] then (v, BatchOk)
    else if env.payloadRejected then (v, BatchFailed(false, Refused))
    else if v.wedged then (v, BatchFailed(true, Unavailable))
    else if env.laneGuard then (v, BatchFailed(false, Refused))
    else if v.log.role != Leader then (v, BatchFailed(true, NotLeader))
    else match Admit(v, items)
      case Stopped(pending, error) => (v.(pending := pending), BatchFailed(false, error))
      case Going(pending, _, admitted) => CommitAdmitted(v.(pending := pending), admitted, env)
  }

  ghost function CommitAdmitted(v: EngineView, admitted: seq<Item>, env: BatchEnv): (EngineView, BatchResult)
    requires Contiguous(v.log)
  {
    if admitted == [] then (v, BatchOk)
    else if env.tableAccessFails || env.outcomesFail then (v, BatchFailed(false, Refused))
    else
      var clean := PrepareError(v, admitted, env.recordFailsAt, env.flushFails);
      if clean.Some? then (v, BatchFailed(true, clean.value))
      else
        var durable := Durable(v, admitted);
        var installed := InstallAll(durable, admitted, v.log.nextIndex, env.wallClock);
        var (w, ok) := Settle(durable, installed, env.fault);
        (w, if ok then BatchOk else BatchFailed(false, Indeterminate))
  }
}
