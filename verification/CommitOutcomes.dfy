/**
 What a commit call leaves behind, said outright: exactly which calls commit, the records, entries,
 statuses and boundaries they leave, what every failure blames, and that over whole runs nothing is
 logged or applied that nobody asked for.
 */
module CommitOutcomes {
  import opened Primitives
  import opened Replication
  import opened Publication
  import opened CommitSpec
  import opened CommitRuns

  // ---------------------------------------------------------------- the serialized path

  /** The fault does not strike a group of `count` entries. */
  predicate Harmless(fault: PostFault, count: nat)
  {
    fault.NoFault? || (fault.ApplyFailsAt? && count <= fault.entry)
  }

  /** Nothing stops the request before it is proposed. */
  ghost predicate MayPropose(v: EngineView, item: Item, env: OneEnv)
  {
    && !v.wedged && v.log.role == Leader
    && item.txn !in v.status && item.txn !in v.pending && item.txn !in v.active
    && !env.snapshotActive && !env.payloadRejected && !env.laneGuard && !env.tableAccessFails
    && !env.catalogChanged && !env.preflightFails && !env.outcomeFails
  }

  /** Nothing stops it before it is durable. */
  ghost predicate BecomesDurable(v: EngineView, item: Item, env: OneEnv)
  {
    MayPropose(v, item, env) && v.log.nextIndex < U64_MAX && !env.recordFails && !env.flushFails
  }

  /** An exact retry that gets as far as the lookup. */
  ghost predicate IsAnsweredRetry(v: EngineView, item: Item, env: OneEnv)
  {
    && !v.wedged && v.log.role == Leader && !env.snapshotActive && !env.payloadRejected && !env.laneGuard
    && item.txn in v.status && v.status[item.txn].Committed? && v.status[item.txn].digest == item.digest
  }

  /** The state with one more committed request: its own bytes in the log, the WAL and the state machine. */
  ghost function WithCommitted(v: EngineView, item: Item, timestamp: U64): EngineView
    requires v.log.nextIndex < U64_MAX
  {
    var n := v.log.nextIndex;
    EngineView(
      LogView(v.log.role, n + 1, n, n, v.log.entries + [LogEntry(n, item.payload)]),
      v.wal + [WalRecord(item.txn, n, item.payload, item.digest)],
      |v.wal| + 1,
      v.status[item.txn := Committed(item.digest, n, item.affectedRows)],
      v.timestamps[item.txn := timestamp],
      if v.maxTimestamp < timestamp then timestamp else v.maxTimestamp,
      v.active, v.pending,
      v.applied + [LogEntry(n, item.payload)],
      Join(n + 1, {}), n, false)
  }

  /** A request is committed exactly when nothing stops it; a stop before durability leaves no trace,
      and one after it leaves the durable record behind on a wedged engine. */
  lemma CommitOneOutcome(v: EngineView, item: Item, timestamp: U64, env: OneEnv)
    requires Inv(v)
    ensures var (w, r) := CommitOne(v, item, timestamp, env);
      && (BecomesDurable(v, item, env) && Harmless(env.fault, 1) ==>
            w == WithCommitted(v, item, timestamp) && r == Token(v.log.nextIndex))
      && (BecomesDurable(v, item, env) && !Harmless(env.fault, 1) ==>
            && r == Failed(Indeterminate) && w.wedged && w.committedSeq == v.committedSeq
            && w.wal == v.wal + [WalRecord(item.txn, v.log.nextIndex, item.payload, item.digest)]
            && w.flushed == |w.wal|
            && w.status == if env.fault.WaitFails? then v.status
                           else WithCommitted(v, item, timestamp).status)
      && (!BecomesDurable(v, item, env) ==> w == v)
      && (!BecomesDurable(v, item, env) ==> (r.Token? <==> IsAnsweredRetry(v, item, env)))
      && (IsAnsweredRetry(v, item, env) ==> r == Token(v.status[item.txn].index))
  {
    hide TxnsDistinct, Sequenced, StatusesNameRecords, HaveStatus, LogMatchesWal, AppliedMatchesWal;
    if BecomesDurable(v, item, env) {
      FreshCommit(v, item, timestamp, env);
    }
  }

  lemma FreshCommit(v: EngineView, item: Item, timestamp: U64, env: OneEnv)
    requires Inv(v) && BecomesDurable(v, item, env)
    ensures var (w, r) := CommitFresh(v, item, timestamp, env);
      if Harmless(env.fault, 1) then w == WithCommitted(v, item, timestamp) && r == Token(v.log.nextIndex)
      else
        && r == Failed(Indeterminate) && w.wedged && w.committedSeq == v.committedSeq
        && w.wal == v.wal + [WalRecord(item.txn, v.log.nextIndex, item.payload, item.digest)]
        && w.flushed == |w.wal|
        && w.status == if env.fault.WaitFails? then v.status
                       else WithCommitted(v, item, timestamp).status
  {
    hide TxnsDistinct, Sequenced, StatusesNameRecords, HaveStatus, LogMatchesWal, AppliedMatchesWal;
    var n := v.log.nextIndex;
    var durable := Durable(v, [item]);
    assert Records([item], n) == [WalRecord(item.txn, n, item.payload, item.digest)];
    assert Numbered(Payloads([item]), n) == [LogEntry(n, item.payload)];
    assert Unapplied(durable.log) == [LogEntry(n, item.payload)];
    assert ReleaseClaim(v.pending, item) == v.pending;
  }

  /** What must have gone wrong for each error of the serialized path. */
  ghost predicate Blames(v: EngineView, item: Item, env: OneEnv, error: Error)
  {
    match error
    case Refused =>
      || env.snapshotActive || env.payloadRejected || env.laneGuard || env.tableAccessFails || env.catalogChanged
      || env.preflightFails || env.outcomeFails
    case Unavailable => v.wedged
    case NotLeader => v.log.role != Leader
    case DifferentRequest =>
      || (item.txn in v.status && v.status[item.txn].digest != item.digest)
      || (item.txn in v.pending && v.pending[item.txn] != item.digest)
    case DurablyAborted => item.txn in v.status && v.status[item.txn] == AbortedOrphan(item.digest)
    case PendingClaim => item.txn in v.pending && v.pending[item.txn] == item.digest
    case OwnedByTransaction => item.txn in v.active
    case NotYetPublished => false
    case ProposalFailed => v.log.nextIndex == U64_MAX
    case RecordFailed => env.recordFails
    case FlushFailed => env.flushFails
    case Indeterminate => !Harmless(env.fault, 1)
  }

  lemma FailureIsBlamed(v: EngineView, item: Item, timestamp: U64, env: OneEnv)
    requires Inv(v)
    ensures var r := CommitOne(v, item, timestamp, env).1;
      r.Failed? ==> Blames(v, item, env, r.error)
  {
    hide TxnsDistinct, Sequenced, StatusesNameRecords, HaveStatus, LogMatchesWal, AppliedMatchesWal;
    if BecomesDurable(v, item, env) { FreshCommit(v, item, timestamp, env); }
  }

  /** A pending claim, whoever holds it, keeps the serialized path out. */
  lemma PendingClaimAddsNothing(v: EngineView, item: Item, timestamp: U64, env: OneEnv)
    requires Inv(v) && item.txn !in v.status && item.txn in v.pending
    ensures var (w, r) := CommitOne(v, item, timestamp, env); w == v && r.Failed?
  {
    CommitOneOutcome(v, item, timestamp, env);
  }

  // ---------------------------------------------------------------- who gets into a batch

  ghost predicate Repeats(items: seq<Item>, k: nat)
    requires k < |items|
  {
    exists j :: 0 <= j < k && items[j].txn == items[k].txn
  }

  /** The requests a batch has to commit: first occurrences of identities without a terminal status. */
  ghost function NewRequests(status: map<TxnId, Status>, items: seq<Item>): seq<Item>
  {
    if items == [] then []
    else
      var n := |items| - 1;
      NewRequests(status, items[..n])
      + if items[n].txn !in status && !Repeats(items, n) then [items[n]] else []
  }

  ghost predicate Answered(v: EngineView, item: Item)
  {
    && item.txn in v.status && v.status[item.txn].Committed? && v.status[item.txn].digest == item.digest
    && v.status[item.txn].index <= v.committedSeq
  }

  /** Item `k` is acceptable next to everything already known: an exact retry of visible work, or an
      identity no other request, transaction or earlier item holds. */
  ghost predicate Acceptable(v: EngineView, items: seq<Item>, k: nat)
    requires k < |items|
  {
    if items[k].txn in v.status then Answered(v, items[k])
    else
      && items[k].txn !in v.active
      && (items[k].txn in v.pending ==> v.pending[items[k].txn] == items[k].digest)
      && forall j :: 0 <= j < k && items[j].txn == items[k].txn ==> items[j].digest == items[k].digest
  }

  ghost predicate AllAcceptable(v: EngineView, items: seq<Item>)
  {
    forall k :: 0 <= k < |items| ==> Acceptable(v, items, k)
  }

  /** Some item is an exact retry that holds the pending claim on `t`. */
  ghost predicate Retried(v: EngineView, items: seq<Item>, t: TxnId)
  {
    exists k :: 0 <= k < |items| && items[k].txn == t && t in v.status
                && t in v.pending && v.pending[t] == items[k].digest
  }

  /** The pending claims left once every exact retry has released its own. */
  ghost function Unreleased(v: EngineView, items: seq<Item>): map<TxnId, Digest>
  {
    map t | t in v.pending && !Retried(v, items, t) :: v.pending[t]
  }

  /** Which claims an item list makes inside the batch. */
  ghost predicate ClaimsAre(v: EngineView, claims: map<TxnId, Digest>, items: seq<Item>)
  {
    && (forall k :: 0 <= k < |items| && items[k].txn !in v.status ==>
          items[k].txn in claims && claims[items[k].txn] == items[k].digest)
    && (forall t :: t in claims ==> t !in v.status && exists k :: 0 <= k < |items| && items[k].txn == t)
  }

  lemma ClaimsExtend(v: EngineView, claims: map<TxnId, Digest>, prior: seq<Item>, item: Item)
    requires ClaimsAre(v, claims, prior) && item.txn !in v.status
    requires item.txn !in claims || claims[item.txn] == item.digest
    ensures ClaimsAre(v, claims[item.txn := item.digest], prior + [item])
    ensures item.txn in claims <==> Repeats(prior + [item], |prior|)
  {
    var items := prior + [item];
    var after := claims[item.txn := item.digest];
    assert items[|prior|] == item && forall j :: 0 <= j < |prior| ==> items[j] == prior[j];
    forall t | t in after ensures t !in v.status && exists k :: 0 <= k < |items| && items[k].txn == t {
      if t in claims {
        var k :| 0 <= k < |prior| && prior[k].txn == t;
        assert items[k].txn == t;
      } else {
        assert items[|prior|].txn == t;
      }
    }
    if item.txn in claims {
      var k :| 0 <= k < |prior| && prior[k].txn == item.txn;
      assert items[k].txn == items[|prior|].txn;
    }
  }

  lemma ClaimsIgnoreRetry(v: EngineView, claims: map<TxnId, Digest>, prior: seq<Item>, item: Item)
    requires ClaimsAre(v, claims, prior) && item.txn in v.status
    ensures ClaimsAre(v, claims, prior + [item])
  {
    var items := prior + [item];
    assert items[|prior|] == item && forall j :: 0 <= j < |prior| ==> items[j] == prior[j];
    forall t | t in claims ensures exists k :: 0 <= k < |items| && items[k].txn == t {
      var k :| 0 <= k < |prior| && prior[k].txn == t;
      assert items[k].txn == t;
    }
  }

  lemma RetriedGrows(v: EngineView, prior: seq<Item>, item: Item, t: TxnId)
    ensures Retried(v, prior + [item], t) <==>
      Retried(v, prior, t)
      || (item.txn == t && t in v.status && t in v.pending && v.pending[t] == item.digest)
  {
    var items := prior + [item];
    assert items[|prior|] == item && forall j :: 0 <= j < |prior| ==> items[j] == prior[j];
    if Retried(v, prior, t) {
      var k :| 0 <= k < |prior| && prior[k].txn == t && t in v.status
               && t in v.pending && v.pending[t] == prior[k].digest;
      assert items[k] == prior[k];
    }
  }

  lemma UnreleasedStep(v: EngineView, prior: seq<Item>, item: Item)
    ensures item.txn !in v.status ==> Unreleased(v, prior + [item]) == Unreleased(v, prior)
    ensures item.txn in v.status ==> Unreleased(v, prior + [item]) == ReleaseClaim(Unreleased(v, prior), item)
  {
    hide Retried;
    forall t ensures Retried(v, prior + [item], t) <==>
      Retried(v, prior, t) || (item.txn == t && t in v.status && t in v.pending && v.pending[t] == item.digest)
    {
      RetriedGrows(v, prior, item, t);
    }
  }

  lemma FreshClaimStays(v: EngineView, items: seq<Item>, t: TxnId)
    requires t !in v.status
    ensures t in Unreleased(v, items) <==> t in v.pending
    ensures t in v.pending ==> Unreleased(v, items)[t] == v.pending[t]
  {
  }

  lemma AcceptableAt(v: EngineView, prior: seq<Item>, item: Item, k: nat)
    requires k < |prior|
    ensures Acceptable(v, prior + [item], k) <==> Acceptable(v, prior, k)
  {
    assert forall j :: 0 <= j < |prior| ==> (prior + [item])[j] == prior[j];
  }

  lemma AllAcceptableSplits(v: EngineView, prior: seq<Item>, item: Item)
    ensures AllAcceptable(v, prior + [item]) <==>
      AllAcceptable(v, prior) && Acceptable(v, prior + [item], |prior|)
  {
    hide Acceptable;
    var items := prior + [item];
    forall k | 0 <= k < |prior| ensures Acceptable(v, items, k) <==> Acceptable(v, prior, k) {
      AcceptableAt(v, prior, item, k);
    }
    if AllAcceptable(v, prior) && Acceptable(v, items, |prior|) {
      forall k | 0 <= k < |items| ensures Acceptable(v, items, k) {
        if k < |prior| { assert Acceptable(v, prior, k); }
      }
    }
    if AllAcceptable(v, items) {
      forall k | 0 <= k < |prior| ensures Acceptable(v, prior, k) { assert Acceptable(v, items, k); }
    }
  }

  /** Against the claims of everything before it, a fresh item conflicts exactly when an earlier item
      used its identity for another request. */
  lemma AcceptableByClaims(v: EngineView, claims: map<TxnId, Digest>, prior: seq<Item>, item: Item)
    requires ClaimsAre(v, claims, prior) && item.txn !in v.status
    ensures Acceptable(v, prior + [item], |prior|) <==>
      && item.txn !in v.active
      && (item.txn in v.pending ==> v.pending[item.txn] == item.digest)
      && (item.txn in claims ==> claims[item.txn] == item.digest)
  {
    var items := prior + [item];
    assert items[|prior|] == item && forall j :: 0 <= j < |prior| ==> items[j] == prior[j];
    if item.txn in claims {
      var k :| 0 <= k < |prior| && prior[k].txn == item.txn;
      assert items[k].txn == item.txn && claims[item.txn] == items[k].digest;
    }
  }

  lemma NewRequestsStep(status: map<TxnId, Status>, prior: seq<Item>, item: Item)
    ensures NewRequests(status, prior + [item]) == NewRequests(status, prior)
      + if item.txn !in status && !Repeats(prior + [item], |prior|) then [item] else []
  {
    assert (prior + [item])[..|prior|] == prior;
  }

  /** A batch is admitted exactly when every item is acceptable.  Then it commits the first occurrence
      of each new identity and nothing else, and releases the claims of its exact retries. */
  lemma {:induction false} AdmissionOutcome(v: EngineView, items: seq<Item>)
    ensures Admit(v, items).Going? <==> AllAcceptable(v, items)
    ensures Admit(v, items).Going? ==>
      && Admit(v, items).admitted == NewRequests(v.status, items)
      && Admit(v, items).pending == Unreleased(v, items)
      && ClaimsAre(v, Admit(v, items).claims, items)
  {
    hide Acceptable, AllAcceptable, ClaimsAre, NewRequests, Unreleased;
    if items == [] {
      NothingAdmitted(v);
    } else {
      var prior, item := items[..|items| - 1], items[|items| - 1];
      assert items == prior + [item];
      AdmissionOutcome(v, prior);
      AllAcceptableSplits(v, prior, item);
      var g := Admit(v, prior);
      if g.Going? { AdmitOneOutcome(v, g, prior, item); }
    }
  }

  lemma NothingAdmitted(v: EngineView)
    ensures AllAcceptable(v, []) && NewRequests(v.status, []) == [] && ClaimsAre(v, map[], [])
    ensures Unreleased(v, []) == v.pending
  {
  }

  lemma AdmitOneOutcome(v: EngineView, g: Admission, prior: seq<Item>, item: Item)
    requires g.Going? && g.admitted == NewRequests(v.status, prior) && g.pending == Unreleased(v, prior)
    requires ClaimsAre(v, g.claims, prior)
    ensures var h := AdmitOne(v, g, item); var items := prior + [item];
      && (h.Going? <==> Acceptable(v, items, |prior|))
      && (h.Going? ==> h.admitted == NewRequests(v.status, items) && h.pending == Unreleased(v, items)
                       && ClaimsAre(v, h.claims, items))
  {
    hide ClaimsAre, NewRequests, Unreleased, Repeats;
    var items := prior + [item];
    UnreleasedStep(v, prior, item);
    NewRequestsStep(v.status, prior, item);
    if item.txn in v.status {
      ClaimsIgnoreRetry(v, g.claims, prior, item);
      assert items[|prior|] == item;
    } else {
      hide Acceptable;
      FreshClaimStays(v, prior, item.txn);
      AcceptableByClaims(v, g.claims, prior, item);
      if item.txn !in g.claims || g.claims[item.txn] == item.digest {
        ClaimsExtend(v, g.claims, prior, item);
        assert item.txn in g.claims ==> g.claims[item.txn := item.digest] == g.claims;
      }
    }
  }

  /** An identity that is pending for another request stops the whole batch. */
  lemma ForeignClaimAddsNothing(v: EngineView, items: seq<Item>, env: BatchEnv, k: nat)
    requires Inv(v) && k < |items| && items[k].txn !in v.status
    requires items[k].txn in v.pending && v.pending[items[k].txn] != items[k].digest
    ensures var (w, r) := CommitBatch(v, items, env); r.BatchFailed? && w.wal == v.wal && w.status == v.status
  {
    AdmissionOutcome(v, items);
    assert !Acceptable(v, items, k);
  }

  // ---------------------------------------------------------------- what a batch leaves behind

  ghost predicate MayAdmit(v: EngineView, env: BatchEnv)
  {
    !env.payloadRejected && !v.wedged && !env.laneGuard && v.log.role == Leader
  }

  /** Nothing stops the new requests of an acceptable batch before they are durable. */
  ghost predicate GroupBecomesDurable(v: EngineView, news: seq<Item>, env: BatchEnv)
  {
    && news != [] && !env.tableAccessFails && !env.outcomesFail && !env.flushFails
    && v.log.nextIndex + |news| <= U64_MAX
    && (env.recordFailsAt.Some? ==> |news| <= env.recordFailsAt.value)
  }

  /** The claim on `t` is held by one of these requests. */
  ghost predicate HeldBy(items: seq<Item>, pending: map<TxnId, Digest>, t: TxnId)
  {
    exists k :: 0 <= k < |items| && items[k].txn == t && t in pending && pending[t] == items[k].digest
  }

  ghost function NotHeldBy(pending: map<TxnId, Digest>, items: seq<Item>): map<TxnId, Digest>
  {
    map t | t in pending && !HeldBy(items, pending, t) :: pending[t]
  }

  /** The group is committed: every request's own bytes in order in the log, the WAL and the state
      machine, its status, its released claim, and one boundary for everything. */
  ghost predicate GroupCommitted(v: EngineView, w: EngineView, news: seq<Item>)
    requires Contiguous(v.log) && v.log.nextIndex + |news| <= U64_MAX
  {
    var n, last := v.log.nextIndex, v.log.commitIndex + |news|;
    && w.log == LogView(v.log.role, n + |news|, last, last, v.log.entries + Numbered(Payloads(news), n))
    && w.wal == v.wal + Records(news, n) && w.flushed == |w.wal|
    && w.applied == v.applied + Numbered(Payloads(news), n)
    && StatusesInstalled(v.status, w.status, news, n)
    && w.pending == NotHeldBy(v.pending, news) && w.active == v.active
    && w.join == Join(n + |news|, {}) && w.committedSeq == last && !w.wedged
  }

  ghost predicate GroupIndeterminate(v: EngineView, w: EngineView, news: seq<Item>)
    requires v.log.nextIndex + |news| <= U64_MAX
  {
    && w.wedged && w.committedSeq == v.committedSeq
    && w.wal == v.wal + Records(news, v.log.nextIndex) && w.flushed == |w.wal|
    && (w.status == v.status || StatusesInstalled(v.status, w.status, news, v.log.nextIndex))
  }

  lemma {:induction false} InstallAllReleases(v: EngineView, items: seq<Item>, first: nat, wallClock: U64)
    requires first + |items| <= U64_MAX
    ensures InstallAll(v, items, first, wallClock).pending == NotHeldBy(v.pending, items)
  {
    hide HeldBy;
    if items == [] {
      NobodyHolds(v.pending);
    } else {
      var n := |items| - 1;
      InstallAllReleases(v, items[..n], first, wallClock);
      forall t ensures HeldBy(items, v.pending, t) <==>
        HeldBy(items[..n], v.pending, t) || (items[n].txn == t && t in v.pending && v.pending[t] == items[n].digest)
      {
        HeldByGrows(items, v.pending, t);
      }
    }
  }

  lemma NobodyHolds(pending: map<TxnId, Digest>)
    ensures NotHeldBy(pending, []) == pending
  {
  }

  lemma HeldByGrows(items: seq<Item>, pending: map<TxnId, Digest>, t: TxnId)
    requires items != []
    ensures var n := |items| - 1;
      HeldBy(items, pending, t) <==>
        HeldBy(items[..n], pending, t) || (items[n].txn == t && t in pending && pending[t] == items[n].digest)
  {
    var n := |items| - 1;
    if HeldBy(items[..n], pending, t) {
      var k :| 0 <= k < n && items[..n][k].txn == t && t in pending && pending[t] == items[..n][k].digest;
      assert items[k] == items[..n][k];
    }
    if HeldBy(items, pending, t) {
      var k :| 0 <= k < |items| && items[k].txn == t && t in pending && pending[t] == items[k].digest;
      if k < n { assert items[..n][k] == items[k]; }
    }
  }

  /** Settling an installed group: everything published, or a wedged engine that published nothing. */
  lemma GroupSettles(v: EngineView, installed: EngineView, news: seq<Item>, fault: PostFault)
    requires Synced(v) && !v.wedged && v.log.nextIndex + |news| <= U64_MAX && news != []
    requires installed == Durable(v, news).(status := installed.status, timestamps := installed.timestamps,
                                            maxTimestamp := installed.maxTimestamp, pending := installed.pending)
    requires StatusesInstalled(v.status, installed.status, news, v.log.nextIndex)
    requires installed.pending == NotHeldBy(v.pending, news)
    ensures var (w, ok) := Settle(Durable(v, news), installed, fault);
      && ok == Harmless(fault, |news|)
      && if ok then GroupCommitted(v, w, news) else GroupIndeterminate(v, w, news)
  {
    hide HaveStatus, LogMatchesWal, AppliedMatchesWal, StatusesInstalled, NotHeldBy;
    var todo := Unapplied(installed.log);
    assert todo == Numbered(Payloads(news), v.log.nextIndex);
    assert todo[..|todo|] == todo;
  }

  lemma GroupOutcome(v: EngineView, news: seq<Item>, env: BatchEnv)
    requires Inv(v) && !v.wedged && FreshAndDistinct(v, news) && news != []
    ensures var (w, r) := CommitAdmitted(v, news, env);
      if GroupBecomesDurable(v, news, env) then
        if Harmless(env.fault, |news|) then r == BatchOk && GroupCommitted(v, w, news)
        else r == BatchFailed(false, Indeterminate) && GroupIndeterminate(v, w, news)
      else
        && r.BatchFailed? && w == v && GroupBlames(v, news, env, r.error)
        && r.requeue == (r.error in {Unavailable, NotLeader, ProposalFailed, RecordFailed, FlushFailed})
  {
    hide TxnsDistinct, Sequenced, StatusesNameRecords, HaveStatus, LogMatchesWal, AppliedMatchesWal, FreshAndDistinct;
    hide InstallAll, StatusesInstalled, NotHeldBy, Settle, GroupCommitted, GroupIndeterminate;
    if GroupBecomesDurable(v, news, env) {
      var n := v.log.nextIndex;
      var durable := Durable(v, news);
      AdmittedAreFresh(v, news);
      InstallAllInstalls(durable, news, n, env.wallClock);
      InstallAllReleases(durable, news, n, env.wallClock);
      GroupSettles(v, InstallAll(durable, news, n, env.wallClock), news, env.fault);
    }
  }

  /** What must have gone wrong for a group of new requests not to become durable or visible. */
  ghost predicate GroupBlames(v: EngineView, news: seq<Item>, env: BatchEnv, error: Error)
  {
    match error
    case Refused => env.tableAccessFails || env.outcomesFail
    case ProposalFailed => U64_MAX < v.log.nextIndex + |news|
    case RecordFailed => env.recordFailsAt.Some? && env.recordFailsAt.value < |news|
    case FlushFailed => env.flushFails
    case Indeterminate => !Harmless(env.fault, |news|)
    case _ => false
  }

  /** A batch succeeds exactly when it is empty or every item is acceptable and nothing stops the new
      ones.  Success commits exactly the new requests.  A failure either leaves everything but claims
      of answered retries as it was, or comes after durability and wedges the engine. */
  lemma CommitBatchOutcome(v: EngineView, items: seq<Item>, env: BatchEnv)
    requires Inv(v)
    ensures var (w, r) := CommitBatch(v, items, env);
      var news := NewRequests(v.status, items);
      var released := v.(pending := Unreleased(v, items));
      if items == [] then r == BatchOk && w == v
      else if !MayAdmit(v, env) then r.BatchFailed? && w == v
      else if !AllAcceptable(v, items) then
        r.BatchFailed? && !r.requeue && w == v.(pending := w.pending) && ReleasedOnlyCommitted(v, w.pending)
      else if news == [] then r == BatchOk && w == released
      else if !GroupBecomesDurable(v, news, env) then r.BatchFailed? && w == released
      else if Harmless(env.fault, |news|) then r == BatchOk && GroupCommitted(released, w, news)
      else r == BatchFailed(false, Indeterminate) && GroupIndeterminate(v, w, news)
  {
    hide TxnsDistinct, Sequenced, StatusesNameRecords, HaveStatus, LogMatchesWal, AppliedMatchesWal, FreshAndDistinct;
    hide AllAcceptable, NewRequests, Unreleased, ClaimsAre, CommitAdmitted, Admit, AllCovered, ReleasedOnlyCommitted;
    hide StatusesInstalled, NotHeldBy, ClaimsMatch;
    if items != [] && MayAdmit(v, env) {
      AdmissionOutcome(v, items);
      AdmissionReleasesOnlyCommitted(v, items);
      AdmissionMeaning(v, items);
      var g := Admit(v, items);
      if g.Going? {
        var released := v.(pending := g.pending);
        PendingIsNoMatter(v, g.pending, g.admitted);
        if g.admitted != [] {
          GroupOutcome(released, g.admitted, env);
        } else {
          EmptyGroup(released, env);
        }
      }
    }
  }

  lemma PendingIsNoMatter(v: EngineView, pending: map<TxnId, Digest>, items: seq<Item>)
    requires Inv(v)
    ensures Inv(v.(pending := pending))
    ensures FreshAndDistinct(v.(pending := pending), items) <==> FreshAndDistinct(v, items)
  {
  }

  lemma EmptyGroup(v: EngineView, env: BatchEnv)
    requires Contiguous(v.log)
    ensures CommitAdmitted(v, [], env) == (v, BatchOk)
  {
  }

  /** What must have gone wrong for each error of the batch path; `k` is the item it is about. */
  ghost predicate BlamesItem(v: EngineView, items: seq<Item>, k: nat, error: Error)
    requires k < |items|
  {
    var t := items[k].txn;
    match error
    case DifferentRequest =>
      || (t in v.status && v.status[t].digest != items[k].digest)
      || (t in v.pending && v.pending[t] != items[k].digest)
      || exists j :: 0 <= j < k && items[j].txn == t && items[j].digest != items[k].digest
    case DurablyAborted => t in v.status && v.status[t] == AbortedOrphan(items[k].digest)
    case NotYetPublished => t in v.status && v.status[t].Committed? && v.committedSeq < v.status[t].index
    case OwnedByTransaction => t in v.active
    case _ => false
  }

  /** The error of a batch that is not admitted is about its first unacceptable item. */
  lemma {:induction false} AdmissionBlamesFirst(v: EngineView, items: seq<Item>)
    ensures Admit(v, items).Stopped? ==>
      exists k :: 0 <= k < |items| && BlamesItem(v, items, k, Admit(v, items).error)
                  && !Acceptable(v, items, k) && AllAcceptable(v, items[..k])
  {
    hide Acceptable, AllAcceptable, ClaimsAre, NewRequests, Unreleased;
    if items != [] {
      var n := |items| - 1;
      var prior, item := items[..n], items[n];
      assert items == prior + [item];
      AdmissionBlamesFirst(v, prior);
      var g := Admit(v, prior);
      if g.Stopped? {
        var k :| 0 <= k < |prior| && BlamesItem(v, prior, k, g.error)
                 && !Acceptable(v, prior, k) && AllAcceptable(v, prior[..k]);
        AcceptableAt(v, prior, item, k);
        assert prior[..k] == items[..k];
        BlameStays(v, prior, item, k, g.error);
      } else {
        AdmissionOutcome(v, prior);
        AdmitOneOutcome(v, g, prior, item);
        AdmitOneBlames(v, g, prior, item);
        assert items[..n] == prior;
      }
    }
  }

  lemma BlameStays(v: EngineView, prior: seq<Item>, item: Item, k: nat, error: Error)
    requires k < |prior| && BlamesItem(v, prior, k, error)
    ensures BlamesItem(v, prior + [item], k, error)
  {
    var items := prior + [item];
    assert forall j :: 0 <= j < |prior| ==> items[j] == prior[j];
    if j :| 0 <= j < k && prior[j].txn == prior[k].txn && prior[j].digest != prior[k].digest {
      assert items[j] == prior[j];
    }
  }

  lemma AdmitOneBlames(v: EngineView, g: Admission, prior: seq<Item>, item: Item)
    requires g.Going? && g.pending == Unreleased(v, prior) && ClaimsAre(v, g.claims, prior)
    ensures var h := AdmitOne(v, g, item);
      h.Stopped? ==> BlamesItem(v, prior + [item], |prior|, h.error)
  {
    hide Unreleased;
    var items := prior + [item];
    assert items[|prior|] == item && forall j :: 0 <= j < |prior| ==> items[j] == prior[j];
    if item.txn !in v.status {
      FreshClaimStays(v, prior, item.txn);
      if item.txn in g.claims {
        var k :| 0 <= k < |prior| && prior[k].txn == item.txn;
        assert items[k].txn == item.txn && g.claims[item.txn] == items[k].digest;
      }
    }
  }

  ghost predicate BatchBlames(v: EngineView, items: seq<Item>, env: BatchEnv, error: Error)
  {
    || (error.Refused? && (env.payloadRejected || env.laneGuard))
    || (error.Unavailable? && v.wedged)
    || (error.NotLeader? && v.log.role != Leader)
    || (exists k :: 0 <= k < |items| && BlamesItem(v, items, k, error)
                    && !Acceptable(v, items, k) && AllAcceptable(v, items[..k]))
    || GroupBlames(v, NewRequests(v.status, items), env, error)
  }

  /** Every failure of a batch has its cause: an admission error is about the first unacceptable item,
      and the batch is asked for again exactly on the transient errors. */
  lemma BatchFailureIsBlamed(v: EngineView, items: seq<Item>, env: BatchEnv)
    requires Inv(v)
    ensures var r := CommitBatch(v, items, env).1; r.BatchFailed? ==>
      && BatchBlames(v, items, env, r.error)
      && (r.requeue <==> r.error in {Unavailable, NotLeader, ProposalFailed, RecordFailed, FlushFailed})
  {
    hide TxnsDistinct, Sequenced, StatusesNameRecords, HaveStatus, LogMatchesWal, AppliedMatchesWal, FreshAndDistinct;
    hide AllAcceptable, Acceptable, NewRequests, Unreleased, ClaimsAre, Admit, CommitAdmitted, GroupBlames, BlamesItem;
    hide AllCovered, ClaimsMatch, GroupCommitted, GroupIndeterminate;
    if items != [] && MayAdmit(v, env) {
      AdmissionOutcome(v, items);
      AdmissionMeaning(v, items);
      var g := Admit(v, items);
      if g.Stopped? {
        AdmissionBlamesFirst(v, items);
        AdmissionErrorsAreFinal(v, items);
      } else {
        var released := v.(pending := g.pending);
        PendingIsNoMatter(v, g.pending, g.admitted);
        if g.admitted == [] {
          EmptyGroup(released, env);
        } else {
          GroupOutcome(released, g.admitted, env);
          IndeterminateIsBlamed(released, v, g.admitted, env);
        }
      }
    }
  }

  lemma IndeterminateIsBlamed(released: EngineView, v: EngineView, news: seq<Item>, env: BatchEnv)
    requires released == v.(pending := released.pending)
    ensures !Harmless(env.fault, |news|) ==> GroupBlames(v, news, env, Indeterminate)
    ensures forall error :: GroupBlames(released, news, env, error) <==> GroupBlames(v, news, env, error)
  {
  }

  lemma AdmissionErrorsAreFinal(v: EngineView, items: seq<Item>)
    requires Admit(v, items).Stopped?
    ensures Admit(v, items).error !in {Unavailable, NotLeader, ProposalFailed, RecordFailed, FlushFailed}
  {
    hide Acceptable, AllAcceptable;
    AdmissionBlamesFirst(v, items);
    var k :| 0 <= k < |items| && BlamesItem(v, items, k, Admit(v, items).error)
             && !Acceptable(v, items, k) && AllAcceptable(v, items[..k]);
  }

  // ---------------------------------------------------------------- bytes, over whole runs

  ghost predicate Presents(call: Call, item: Item)
  {
    match call
    case One(one, _, _) => one == item
    case Batch(items, _) => item in items
    case _ => false
  }

  /** Record `k` is what some call asked for. */
  ghost predicate WasRequested(calls: seq<Call>, record: WalRecord)
  {
    exists c, item :: 0 <= c < |calls| && Presents(calls[c], item)
                      && record.txn == item.txn && record.payload == item.payload && record.digest == item.digest
  }

  lemma StepRecordsRequests(v: EngineView, call: Call, k: nat)
    requires Inv(v) && k < |Step(v, call).wal|
    ensures k < |v.wal| ==> Step(v, call).wal[k] == v.wal[k]
    ensures |v.wal| <= k ==> WasRequested([call], Step(v, call).wal[k])
  {
    hide NewRequests, Unreleased, AllAcceptable, StatusesInstalled, NotHeldBy, CommitOne, CommitBatch;
    match call
    case One(item, timestamp, env) =>
      CommitOneOutcome(v, item, timestamp, env);
      assert Presents([call][0], item);
    case Batch(items, env) =>
      CommitBatchOutcome(v, items, env);
      if |v.wal| <= k {
        var item := NewRequests(v.status, items)[k - |v.wal|];
        NewRequestsAreItems(v.status, items);
        assert Presents([call][0], item);
      }
    case _ =>
  }

  lemma {:induction false} NewRequestsAreItems(status: map<TxnId, Status>, items: seq<Item>)
    ensures forall item :: item in NewRequests(status, items) ==> item in items
  {
    if items != [] { NewRequestsAreItems(status, items[..|items| - 1]); }
  }

  /** Nothing is made durable that nobody asked for: over any run every record of the log carries the
      identity, bytes and digest of a request some call presented. */
  lemma {:induction false} EveryRecordWasRequested(v: EngineView, calls: seq<Call>, k: nat)
    requires Inv(v) && |v.wal| <= k < |Run(v, calls).wal|
    ensures WasRequested(calls, Run(v, calls).wal[k])
    decreases |calls|
  {
    hide Step, WasRequested;
    var w := Step(v, calls[0]);
    var rest := calls[1..];
    if k < |w.wal| {
      StepRecordsRequests(v, calls[0], k);
      RunKeepsRecord(w, rest, k);
      RequestedAmongMore([calls[0]], calls, Run(v, calls).wal[k], 0);
    } else {
      EveryRecordWasRequested(w, rest, k);
      RequestedAmongMore(rest, calls, Run(v, calls).wal[k], 1);
    }
  }

  lemma RequestedAmongMore(few: seq<Call>, calls: seq<Call>, record: WalRecord, from: nat)
    requires WasRequested(few, record) && from + |few| <= |calls|
    requires forall c :: 0 <= c < |few| ==> few[c] == calls[from + c]
    ensures WasRequested(calls, record)
  {
    var c, item :| 0 <= c < |few| && Presents(few[c], item)
                   && record.txn == item.txn && record.payload == item.payload && record.digest == item.digest;
    assert Presents(calls[from + c], item);
  }

  lemma {:induction false} RunKeepsRecord(v: EngineView, calls: seq<Call>, k: nat)
    requires Inv(v) && k < |v.wal|
    ensures k < |Run(v, calls).wal| && Run(v, calls).wal[k] == v.wal[k]
    decreases |calls|
  {
    hide Step;
    if calls != [] {
      StepKeepsRecord(v, calls[0], k);
      RunKeepsRecord(Step(v, calls[0]), calls[1..], k);
    }
  }

  lemma StepKeepsRecord(v: EngineView, call: Call, k: nat)
    requires Inv(v) && k < |v.wal|
    ensures k < |Step(v, call).wal| && Step(v, call).wal[k] == v.wal[k]
  {
    hide NewRequests, Unreleased, AllAcceptable, StatusesInstalled, NotHeldBy, CommitOne, CommitBatch;
    match call
    case One(item, timestamp, env) => CommitOneOutcome(v, item, timestamp, env);
    case Batch(items, env) => CommitBatchOutcome(v, items, env);
    case _ =>
  }
}
