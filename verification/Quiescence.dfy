/**
 The quiescence gate of crates/engine/src/engine_commit_coordinator.rs, as every interleaving of
 claimants and off-lock durability tails runs it.

 A claimant takes the commit lock, re-reads the tail counters one at a time and either enters or
 releases the lock and starts over.  A tail takes the same lock without the gate, issues indices,
 registers itself, releases the lock and reports (or wedges) later.  The off-lock waits that precede
 the gate are advisory, so here they may return at any moment.
 */
module Quiescence {
  import opened Primitives
  import opened Publication

  type Tid = nat

  /** Classic waves and intent lanes keep separate started/finished counters. */
  datatype Kind = Wave | Lane

  datatype Counters = Counters(started: nat, finished: nat)

  datatype Pc =
    | Idle
    // a claimant going through the gate
    | Locked
    | ReadWaveStarted(ws: nat)
    | ReadWaveFinished(ws: nat, wf: nat)
    | ReadLaneStarted(ws: nat, wf: nat, ls: nat)
    | ReadLaneFinished(ws: nat, wf: nat, ls: nat, lf: nat)
    | Inside
    | Claimed(first: U64, count: nat)
    | Reported(visible: U64, terminal: int)
    // a pipelined strategy and its tail
    | TailLocked
    | TailIssued(first: U64, count: nat)
    | TailRegistered(kind: Kind, first: U64, count: nat)
    | TailOpen(kind: Kind, first: U64, count: nat)
    | TailDone(kind: Kind)

  datatype State = State(
    lock: Option<Tid>,
    wave: Counters,
    lane: Counters,
    wedged: bool,
    nextIndex: U64,
    join: Join,
    threads: map<Tid, Pc>)

  datatype Action =
    | LockThroughGate | LockForTail   // acquire the commit lock
    | Read                            // load the next tail counter
    | Decide                          // compare the loaded counters, then check availability
    | Issue(count: nat)               // propose `count` consecutive indices, append, apply
    | Withdraw                        // clean rollback before durability
    | Register(kind: Kind)
    | ReportIndices
    | Fail                            // wedge the engine instead of reporting
    | Unlock
    | FinishTail
    | WedgeElsewhere

  // ---------------------------------------------------------------- steps

  predicate Holds(pc: Pc)
  {
    !pc.Idle? && !pc.TailOpen? && !pc.TailDone?
  }

  predicate OpenTail(pc: Pc, kind: Kind)
  {
    (pc.TailRegistered? || pc.TailOpen? || pc.TailDone?) && pc.kind == kind
  }

  /** `i` has been issued to this thread, which has neither reported nor given up on it. */
  predicate Owns(pc: Pc, i: nat)
  {
    (pc.Claimed? || pc.TailIssued? || pc.TailRegistered? || pc.TailOpen?) && pc.first <= i < pc.first + pc.count
  }

  function Goto(s: State, t: Tid, pc: Pc): State
  {
    s.(threads := s.threads[t := pc])
  }

  function Released(s: State, t: Tid, pc: Pc): State
  {
    Goto(s, t, pc).(lock := None)
  }

  /** The exact index range of one report. */
  function Indices(first: U64, count: nat): (range: seq<U64>)
    requires first + count <= U64_MAX
    ensures |range| == count && forall k :: 0 <= k < |range| ==> range[k] == first + k
  {
    seq(count, k requires 0 <= k < count => first + k)
  }

  function CountersOf(s: State, kind: Kind): Counters
  {
    if kind.Wave? then s.wave else s.lane
  }

  function WithCounters(s: State, kind: Kind, c: Counters): State
  {
    if kind.Wave? then s.(wave := c) else s.(lane := c)
  }

  /** One atomic step of thread `t`; an action the thread cannot take changes nothing. */
  ghost function Step(s: State, t: Tid, a: Action): State
    requires WellFormed(s.join)
  {
    if a.WedgeElsewhere? then s.(wedged := true)
    else if t !in s.threads then s
    else match (s.threads[t], a)
      case (Idle, LockThroughGate) => if s.lock.None? then Goto(s, t, Locked).(lock := Some(t)) else s
      case (Idle, LockForTail) => if s.lock.None? then Goto(s, t, TailLocked).(lock := Some(t)) else s

      case (Locked, Read) => Goto(s, t, ReadWaveStarted(s.wave.started))
      case (ReadWaveStarted(ws), Read) => Goto(s, t, ReadWaveFinished(ws, s.wave.finished))
      case (ReadWaveFinished(ws, wf), Read) => Goto(s, t, ReadLaneStarted(ws, wf, s.lane.started))
      case (ReadLaneStarted(ws, wf, ls), Read) => Goto(s, t, ReadLaneFinished(ws, wf, ls, s.lane.finished))
      case (ReadLaneFinished(ws, wf, ls, lf), Decide) =>
        if ws == wf && ls == lf && !s.wedged then Goto(s, t, Inside) else Released(s, t, Idle)

      case (Inside, Issue(count)) =>
        if s.nextIndex + count <= U64_MAX then
          Goto(s, t, Claimed(s.nextIndex, count)).(nextIndex := s.nextIndex + count)
        else s
      case (Inside, Unlock) => Released(s, t, Idle)
      case (Claimed(first, _), Withdraw) => Released(s, t, Idle).(nextIndex := first)
      case (Claimed(_, _), Fail) => Released(s, t, Idle).(wedged := true)
      case (Claimed(first, count), ReportIndices) =>
        if first + count <= U64_MAX then
          var (join, r) := Publish(s.join, Indices(first, count));
          if r.Published? then Goto(s, t, Reported(r.visible, first + count - 1)).(join := join)
          else Released(s, t, Idle).(join := join, wedged := true)
        else s
      case (Reported(visible, terminal), Unlock) =>
        if terminal <= visible then Released(s, t, Idle) else Released(s, t, Idle).(wedged := true)

      case (TailLocked, Issue(count)) =>
        if s.nextIndex + count <= U64_MAX then
          Goto(s, t, TailIssued(s.nextIndex, count)).(nextIndex := s.nextIndex + count)
        else s
      case (TailLocked, Unlock) => Released(s, t, Idle)
      case (TailIssued(first, _), Withdraw) => Released(s, t, Idle).(nextIndex := first)
      case (TailIssued(_, _), Fail) => Released(s, t, Idle).(wedged := true)
      case (TailIssued(first, count), Register(kind)) =>
        var c := CountersOf(s, kind);
        WithCounters(Goto(s, t, TailRegistered(kind, first, count)), kind, c.(started := c.started + 1))
      case (TailRegistered(kind, first, count), Unlock) => Released(s, t, TailOpen(kind, first, count))
      case (TailOpen(kind, first, count), ReportIndices) =>
        if first + count <= U64_MAX then
          var (join, r) := Publish(s.join, Indices(first, count));
          Goto(s, t, TailDone(kind)).(join := join, wedged := s.wedged || r.OutsideDomain?)
        else s
      case (TailOpen(kind, _, _), Fail) => Goto(s, t, TailDone(kind)).(wedged := true)
      case (TailDone(kind), FinishTail) =>
        var c := CountersOf(s, kind);
        WithCounters(Goto(s, t, Idle), kind, c.(finished := c.finished + 1))
      case _ => s
  }

  // ---------------------------------------------------------------- the inductive invariant

  ghost function OpenTails(threads: map<Tid, Pc>, kind: Kind): set<Tid>
  {
    set t | t in threads && OpenTail(threads[t], kind)
  }

  ghost predicate LockIsExclusive(lock: Option<Tid>, threads: map<Tid, Pc>)
  {
    && (forall t :: t in threads && Holds(threads[t]) ==> lock == Some(t))
    && (lock.Some? ==> lock.value in threads && Holds(threads[lock.value]))
  }

  ghost predicate CountersCount(c: Counters, threads: map<Tid, Pc>, kind: Kind)
  {
    c.started == c.finished + |OpenTails(threads, kind)|
  }

  ghost predicate BoundaryIsTight(join: Join, nextIndex: nat)
  {
    && WellFormed(join) && join.visibleNext <= nextIndex <= U64_MAX
    && join.visibleNext !in join.ready
    && (forall i :: i in join.ready ==> i < nextIndex)
  }

  /** What a thread still owns is issued, invisible and unreported, and nobody else's. */
  ghost predicate OwnershipIsExclusive(join: Join, nextIndex: nat, threads: map<Tid, Pc>)
  {
    && (forall t, i: nat {:trigger Owns(threads[t], i)} :: t in threads && Owns(threads[t], i) ==>
          join.visibleNext <= i < nextIndex && i !in join.ready)
    && (forall t, u, i: nat {:trigger Owns(threads[t], i), Owns(threads[u], i)} ::
          t in threads && u in threads && Owns(threads[t], i) && Owns(threads[u], i) ==> t == u)
  }

  ghost predicate Owned(threads: map<Tid, Pc>, i: nat)
  {
    exists t :: t in threads && Owns(threads[t], i)
  }

  /** Every issued invisible index is either reported or still owned. */
  ghost predicate NothingIsLost(join: Join, nextIndex: nat, threads: map<Tid, Pc>)
  {
    forall i: nat :: join.visibleNext <= i < nextIndex ==> i in join.ready || Owned(threads, i)
  }

  ghost predicate NoOpenTails(threads: map<Tid, Pc>)
  {
    forall t, kind :: t in threads ==> !OpenTail(threads[t], kind)
  }

  /** What a thread at `pc` knows about the shared state. */
  ghost predicate Knows(s: State, pc: Pc)
  {
    match pc
    case ReadWaveStarted(ws) => ws == s.wave.started
    case ReadWaveFinished(ws, wf) => ws == s.wave.started && wf <= s.wave.finished
    case ReadLaneStarted(ws, wf, ls) => ws == s.wave.started && wf <= s.wave.finished && ls == s.lane.started
    case ReadLaneFinished(ws, wf, ls, lf) =>
      ws == s.wave.started && wf <= s.wave.finished && ls == s.lane.started && lf <= s.lane.finished
    case Inside => NoOpenTails(s.threads) && s.join == Join(s.nextIndex, {})
    case Claimed(first, count) =>
      NoOpenTails(s.threads) && first + count == s.nextIndex && s.join == Join(first, {})
    case Reported(visible, terminal) => visible == terminal
    case TailIssued(first, count) => first + count == s.nextIndex
    case TailRegistered(_, first, count) => first + count <= U64_MAX
    case TailOpen(_, first, count) => first + count <= U64_MAX
    case _ => true
  }

  ghost predicate Inv(s: State)
  {
    && LockIsExclusive(s.lock, s.threads)
    && CountersCount(s.wave, s.threads, Wave) && CountersCount(s.lane, s.threads, Lane)
    && BoundaryIsTight(s.join, s.nextIndex)
    && OwnershipIsExclusive(s.join, s.nextIndex, s.threads)
    && (!s.wedged ==> NothingIsLost(s.join, s.nextIndex, s.threads))
    && (forall t :: t in s.threads ==> Knows(s, s.threads[t]))
  }

  // ---------------------------------------------------------------- every step keeps it

  lemma OpenTailsAfter(threads: map<Tid, Pc>, t: Tid, pc: Pc, kind: Kind)
    requires t in threads
    ensures var after := OpenTails(threads[t := pc], kind);
      && (OpenTail(pc, kind) == OpenTail(threads[t], kind) ==> after == OpenTails(threads, kind))
      && (OpenTail(pc, kind) && !OpenTail(threads[t], kind) ==> |after| == |OpenTails(threads, kind)| + 1)
      && (!OpenTail(pc, kind) && OpenTail(threads[t], kind) ==> |after| == |OpenTails(threads, kind)| - 1)
  {
    var before := OpenTails(threads, kind);
    var after := OpenTails(threads[t := pc], kind);
    if OpenTail(pc, kind) {
      assert after == before + {t};
    } else {
      assert after == before - {t};
    }
  }

  lemma NoneOpen(threads: map<Tid, Pc>)
    requires |OpenTails(threads, Wave)| == 0 && |OpenTails(threads, Lane)| == 0
    ensures NoOpenTails(threads)
  {
    forall t, kind: Kind | t in threads ensures !OpenTail(threads[t], kind) {
      assert OpenTails(threads, kind) == {};
      assert t !in OpenTails(threads, kind);
    }
  }

  /** Nobody but the lock holder knows anything a lock-protected step could falsify. */
  lemma OthersKnowNothing(s: State, t: Tid, pc: Pc, after: State)
    requires LockIsExclusive(s.lock, s.threads) && t in s.threads
    requires s.lock == Some(t) || s.lock.None?
    requires forall u :: u in s.threads ==> Knows(s, s.threads[u])
    requires after.threads == s.threads[t := pc] && Knows(after, pc)
    ensures forall u :: u in after.threads ==> Knows(after, after.threads[u])
  {
    forall u | u in after.threads ensures Knows(after, after.threads[u]) {
      if u != t {
        assert u in s.threads && !Holds(s.threads[u]) && Knows(s, s.threads[u]);
      }
    }
  }

  ghost predicate OwnsNoMore(pc: Pc, than: Pc)
  {
    forall i: nat :: Owns(pc, i) ==> Owns(than, i)
  }

  lemma OwnershipAfterMove(join: Join, nextIndex: nat, threads: map<Tid, Pc>, t: Tid, pc: Pc)
    requires t in threads && OwnershipIsExclusive(join, nextIndex, threads) && OwnsNoMore(pc, threads[t])
    ensures OwnershipIsExclusive(join, nextIndex, threads[t := pc])
  {
  }

  /** Nothing is lost when the moved thread's dropped indices are reported or above the new end. */
  lemma NothingLostAfterMove(join: Join, nextIndex: nat, threads: map<Tid, Pc>, t: Tid, pc: Pc,
                             newJoin: Join, newNext: nat)
    requires t in threads && NothingIsLost(join, nextIndex, threads) && join.visibleNext <= newJoin.visibleNext
    requires forall i: nat :: newJoin.visibleNext <= i < newNext && i in join.ready ==> i in newJoin.ready
    requires forall i: nat :: newJoin.visibleNext <= i < newNext && (nextIndex <= i || Owns(threads[t], i)) ==>
      i in newJoin.ready || Owns(pc, i)
    ensures NothingIsLost(newJoin, newNext, threads[t := pc])
  {
    var after := threads[t := pc];
    forall i: nat | newJoin.visibleNext <= i < newNext ensures i in newJoin.ready || Owned(after, i) {
      if Owns(pc, i) {
        assert t in after && Owns(after[t], i);
      } else if i < nextIndex && i !in join.ready {
        var u :| u in threads && Owns(threads[u], i);
        if u != t { assert u in after && Owns(after[u], i); }
      }
    }
  }

  lemma MoveKeepsInv(s: State, t: Tid, pc: Pc, lock: Option<Tid>, wedged: bool)
    requires Inv(s) && t in s.threads
    requires lock == if Holds(pc) then Some(t) else if Holds(s.threads[t]) then None else s.lock
    requires s.lock == Some(t) || s.lock.None? || (s.threads[t].TailOpen? && pc.TailDone?)
    requires forall kind :: OpenTail(pc, kind) == OpenTail(s.threads[t], kind)
    requires OwnsNoMore(pc, s.threads[t])
    requires !wedged ==> !s.wedged && OwnsNoMore(s.threads[t], pc)
    requires Knows(Goto(s, t, pc).(lock := lock, wedged := wedged), pc)
    ensures Inv(Goto(s, t, pc).(lock := lock, wedged := wedged))
  {
    var after := Goto(s, t, pc).(lock := lock, wedged := wedged);
    OpenTailsAfter(s.threads, t, pc, Wave);
    OpenTailsAfter(s.threads, t, pc, Lane);
    OwnershipAfterMove(s.join, s.nextIndex, s.threads, t, pc);
    if !wedged { NothingLostAfterMove(s.join, s.nextIndex, s.threads, t, pc, s.join, s.nextIndex); }
    if s.lock == Some(t) || s.lock.None? {
      OthersKnowNothing(s, t, pc, after);
    } else {
      forall u | u in after.threads ensures Knows(after, after.threads[u]) {
        assert OpenTail(s.threads[t], s.threads[t].kind);
      }
    }
  }

  lemma IssueKeepsInv(s: State, t: Tid, pc: Pc)
    requires Inv(s) && t in s.threads && Holds(s.threads[t])
    requires pc.Claimed? || pc.TailIssued?
    requires pc.first == s.nextIndex && s.nextIndex + pc.count <= U64_MAX
    requires s.threads[t].TailLocked? || s.threads[t].Inside?
    requires pc.Claimed? ==> s.threads[t].Inside?
    ensures Inv(Goto(s, t, pc).(nextIndex := s.nextIndex + pc.count))
  {
    hide OpenTails, NothingIsLost, FirstMissing;
    var after := Goto(s, t, pc).(nextIndex := s.nextIndex + pc.count);
    OpenTailsAfter(s.threads, t, pc, Wave);
    OpenTailsAfter(s.threads, t, pc, Lane);
    assert OwnershipIsExclusive(s.join, after.nextIndex, after.threads);
    if !s.wedged {
      NothingLostAfterMove(s.join, s.nextIndex, s.threads, t, pc, s.join, after.nextIndex);
    }
    assert Knows(s, s.threads[t]);
    OthersKnowNothing(s, t, pc, after);
  }

  lemma WithdrawKeepsInv(s: State, t: Tid)
    requires Inv(s) && t in s.threads
    requires s.threads[t].Claimed? || s.threads[t].TailIssued?
    ensures Inv(Released(s, t, Idle).(nextIndex := s.threads[t].first))
  {
    hide OpenTails, NothingIsLost, FirstMissing;
    var pc := s.threads[t];
    var after := Released(s, t, Idle).(nextIndex := pc.first);
    OpenTailsAfter(s.threads, t, Idle, Wave);
    OpenTailsAfter(s.threads, t, Idle, Lane);
    assert Knows(s, pc) && pc.first + pc.count == s.nextIndex;
    assert forall i: nat :: pc.first <= i < s.nextIndex ==> Owns(pc, i);
    assert s.join.visibleNext <= pc.first by {
      if pc.count > 0 { assert Owns(pc, pc.first); }
    }
    WithdrawnOwnership(s.join, s.nextIndex, s.threads, t);
    if !s.wedged {
      NothingLostAfterMove(s.join, s.nextIndex, s.threads, t, Idle, s.join, pc.first);
    }
    OthersKnowNothing(s, t, Idle, after);
  }

  lemma WithdrawnOwnership(join: Join, nextIndex: nat, threads: map<Tid, Pc>, t: Tid)
    requires t in threads && OwnershipIsExclusive(join, nextIndex, threads)
    requires threads[t].Claimed? || threads[t].TailIssued?
    requires threads[t].first + threads[t].count == nextIndex
    requires BoundaryIsTight(join, nextIndex) && join.visibleNext <= threads[t].first
    ensures OwnershipIsExclusive(join, threads[t].first, threads[t := Idle])
    ensures BoundaryIsTight(join, threads[t].first)
  {
    var pc := threads[t];
    var after := threads[t := Idle];
    assert forall i: nat :: pc.first <= i < nextIndex ==> Owns(pc, i);
    forall u, i: nat {:trigger Owns(after[u], i)} | u in after && Owns(after[u], i)
      ensures join.visibleNext <= i < pc.first && i !in join.ready
    {
      assert u != t && Owns(threads[u], i) && !Owns(pc, i);
    }
    forall i: nat | i in join.ready ensures i < pc.first { assert !Owns(threads[t], i); }
    OwnershipAfterMove(join, nextIndex, threads, t, Idle);
  }

  /** A report of issued indices is accepted and moves the boundary over reported indices only. */
  lemma ReportMovesBoundary(join: Join, nextIndex: nat, first: U64, count: nat)
    requires BoundaryIsTight(join, nextIndex) && first + count <= nextIndex && 1 <= first
    ensures var (after, r) := Publish(join, Indices(first, count));
      && r == Published(after.visibleNext - 1)
      && BoundaryIsTight(after, nextIndex)
      && join.visibleNext <= after.visibleNext
      && (forall i :: join.visibleNext <= i < after.visibleNext ==> i in join.ready || first <= i < first + count)
      && (forall i :: after.visibleNext <= i ==> (i in after.ready <==> i in join.ready || first <= i < first + count))
  {
    hide AcceptedPrefix, Accepted;
    var range := Indices(first, count);
    RangeIsAccepted(first, count);
    var ready := join.ready + AtOrAbove(Accepted(range), join.visibleNext);
    assert nextIndex !in ready;
    MissingIsRepresentable(join, ready);
  }

  lemma RangeIsAccepted(first: U64, count: nat)
    requires 1 <= first && first + count <= U64_MAX
    ensures AcceptedPrefix(Indices(first, count)) == Indices(first, count)
    ensures forall i :: i in Accepted(Indices(first, count)) <==> first <= i < first + count
  {
    var range := Indices(first, count);
    assert forall k :: 0 <= k < |range| ==> Publishable(range[k]);
    assert AcceptedPrefix(range) == range;
    forall i ensures i in Accepted(range) <==> first <= i < first + count {
      if first <= i < first + count { assert range[i - first] == i; }
    }
  }

  lemma ReportKeepsOwnership(s: State, t: Tid, pc: Pc)
    requires Inv(s) && t in s.threads && (s.threads[t].Claimed? || s.threads[t].TailOpen?)
    requires s.threads[t].first + s.threads[t].count <= U64_MAX
    requires forall i: nat :: !Owns(pc, i)
    ensures var (join, r) := Publish(s.join, Indices(s.threads[t].first, s.threads[t].count));
      && r == Published(join.visibleNext - 1)
      && BoundaryIsTight(join, s.nextIndex)
      && OwnershipIsExclusive(join, s.nextIndex, s.threads[t := pc])
      && (!s.wedged ==> NothingIsLost(join, s.nextIndex, s.threads[t := pc]))
  {
    hide FirstMissing, AcceptedPrefix, Publish, CountersCount, Knows, LockIsExclusive;
    var own := s.threads[t];
    var after := s.threads[t := pc];
    if own.count == 0 {
      ReportMovesBoundary(s.join, s.nextIndex, 1, 0);
      assert Indices(own.first, 0) == Indices(1, 0);
    } else {
      assert Owns(own, own.first) && Owns(own, own.first + own.count - 1);
      ReportMovesBoundary(s.join, s.nextIndex, own.first, own.count);
    }
    var (join, _) := Publish(s.join, Indices(own.first, own.count));
    assert forall i: nat :: Owns(own, i) <==> own.first <= i < own.first + own.count;
    forall u, i: nat {:trigger Owns(after[u], i)} | u in after && Owns(after[u], i)
      ensures join.visibleNext <= i < s.nextIndex && i !in join.ready
    {
      assert u != t && Owns(s.threads[u], i) && !Owns(own, i);
    }
    OwnershipAfterMove(s.join, s.nextIndex, s.threads, t, pc);
    assert OwnershipIsExclusive(join, s.nextIndex, after);
    if !s.wedged {
      NothingLostAfterMove(s.join, s.nextIndex, s.threads, t, pc, join, s.nextIndex);
    }
  }

  lemma ClaimantReportKeepsInv(s: State, t: Tid)
    requires Inv(s) && t in s.threads && s.threads[t].Claimed?
    ensures Inv(Step(s, t, ReportIndices))
  {
    hide OpenTails, NothingIsLost, FirstMissing, AcceptedPrefix, Publish, OwnershipIsExclusive;
    var own := s.threads[t];
    assert Knows(s, own);
    ReportKeepsOwnership(s, t, Reported(0, 0));
    var (join, r) := Publish(s.join, Indices(own.first, own.count));
    assert join.visibleNext == s.nextIndex by { ClaimantIsCovered(own.first, own.count, s.nextIndex); }
    var pc := Reported(r.visible, own.first + own.count - 1);
    ReportKeepsOwnership(s, t, pc);
    OpenTailsAfter(s.threads, t, pc, Wave);
    OpenTailsAfter(s.threads, t, pc, Lane);
    OthersKnowNothing(s, t, pc, Step(s, t, ReportIndices));
  }

  /** With everything before it published, a claimant's report publishes exactly its own indices. */
  lemma ClaimantIsCovered(first: U64, count: nat, nextIndex: nat)
    requires BoundaryIsTight(Join(first, {}), nextIndex) && first + count == nextIndex
    ensures Publish(Join(first, {}), Indices(first, count)).0.visibleNext == nextIndex
  {
    hide FirstMissing, AcceptedPrefix, Publish;
    ReportMovesBoundary(Join(first, {}), nextIndex, first, count);
  }

  lemma TailReportKeepsInv(s: State, t: Tid)
    requires Inv(s) && t in s.threads && s.threads[t].TailOpen?
    ensures Inv(Step(s, t, ReportIndices))
  {
    hide OpenTails, NothingIsLost, FirstMissing, AcceptedPrefix, Publish, OwnershipIsExclusive;
    var own := s.threads[t];
    var after := Step(s, t, ReportIndices);
    assert Knows(s, own);
    var pc := TailDone(own.kind);
    ReportKeepsOwnership(s, t, pc);
    OpenTailsAfter(s.threads, t, pc, Wave);
    OpenTailsAfter(s.threads, t, pc, Lane);
    forall u | u in after.threads ensures Knows(after, after.threads[u]) {
      assert OpenTail(own, own.kind) && Knows(s, s.threads[u]);
    }
  }

  lemma RegisterKeepsInv(s: State, t: Tid, kind: Kind)
    requires Inv(s) && t in s.threads && s.threads[t].TailIssued?
    ensures Inv(Step(s, t, Register(kind)))
  {
    hide OpenTails, NothingIsLost, FirstMissing, OwnershipIsExclusive;
    var own := s.threads[t];
    var pc := TailRegistered(kind, own.first, own.count);
    assert Knows(s, own);
    OpenTailsAfter(s.threads, t, pc, Wave);
    OpenTailsAfter(s.threads, t, pc, Lane);
    OwnershipAfterMove(s.join, s.nextIndex, s.threads, t, pc);
    if !s.wedged { NothingLostAfterMove(s.join, s.nextIndex, s.threads, t, pc, s.join, s.nextIndex); }
    OthersKnowNothing(s, t, pc, Step(s, t, Register(kind)));
  }

  lemma FinishKeepsInv(s: State, t: Tid)
    requires Inv(s) && t in s.threads && s.threads[t].TailDone?
    ensures Inv(Step(s, t, FinishTail))
  {
    hide OpenTails, NothingIsLost, FirstMissing, OwnershipIsExclusive;
    var own := s.threads[t];
    var after := Step(s, t, FinishTail);
    OpenTailsAfter(s.threads, t, Idle, Wave);
    OpenTailsAfter(s.threads, t, Idle, Lane);
    OwnershipAfterMove(s.join, s.nextIndex, s.threads, t, Idle);
    if !s.wedged { NothingLostAfterMove(s.join, s.nextIndex, s.threads, t, Idle, s.join, s.nextIndex); }
    forall u | u in after.threads ensures Knows(after, after.threads[u]) {
      assert OpenTail(own, own.kind) && Knows(s, s.threads[u]);
    }
  }

  /** Equal counters, read one at a time under the lock, mean there is no unfinished tail; and an
      unwedged engine without unfinished tails has published everything it issued. */
  lemma EqualCountersMeanQuiescent(s: State, t: Tid)
    requires Inv(s) && t in s.threads && s.threads[t].ReadLaneFinished?
    requires s.threads[t].ws == s.threads[t].wf && s.threads[t].ls == s.threads[t].lf && !s.wedged
    ensures NoOpenTails(s.threads) && s.join == Join(s.nextIndex, {})
  {
    assert Knows(s, s.threads[t]);
    NoneOpen(s.threads);
    forall u, i: nat | u in s.threads ensures !Owns(s.threads[u], i) {
      if u != t {
        assert !Holds(s.threads[u]);
        assert s.threads[u].TailOpen? ==> OpenTail(s.threads[u], s.threads[u].kind);
      }
    }
    assert !Owned(s.threads, s.join.visibleNext);
    assert s.join.ready == {};
  }

  lemma DecideKeepsInv(s: State, t: Tid)
    requires Inv(s) && t in s.threads && s.threads[t].ReadLaneFinished?
    ensures Inv(Step(s, t, Decide))
  {
    hide OpenTails, NothingIsLost, FirstMissing, OwnershipIsExclusive;
    var pc := s.threads[t];
    if pc.ws == pc.wf && pc.ls == pc.lf && !s.wedged {
      EqualCountersMeanQuiescent(s, t);
      MoveKeepsInv(s, t, Inside, Some(t), s.wedged);
    } else {
      MoveKeepsInv(s, t, Idle, None, s.wedged);
    }
  }

  lemma ReadKeepsInv(s: State, t: Tid)
    requires Inv(s) && t in s.threads
    ensures Inv(Step(s, t, Read))
  {
    hide OpenTails, NothingIsLost, FirstMissing, AcceptedPrefix, Publish, OwnershipIsExclusive, Owns;
    var pc := s.threads[t];
    assert Knows(s, pc);
    var read := Step(s, t, Read).threads[t];
    if pc.Locked? || pc.ReadWaveStarted? || pc.ReadWaveFinished? || pc.ReadLaneStarted? {
      OwnsNothing(pc, read);
      OwnsNothing(read, pc);
      MoveKeepsInv(s, t, read, Some(t), s.wedged);
    }
  }

  lemma OwnsNothing(a: Pc, b: Pc)
    requires !a.Claimed? && !a.TailIssued? && !a.TailRegistered? && !a.TailOpen?
    ensures OwnsNoMore(a, b)
  {
  }

  lemma LockKeepsInv(s: State, t: Tid, a: Action)
    requires Inv(s) && t in s.threads && s.threads[t].Idle? && s.lock.None?
    requires a.LockThroughGate? || a.LockForTail?
    ensures Inv(Step(s, t, a))
  {
    hide OpenTails, NothingIsLost, FirstMissing, AcceptedPrefix, Publish, OwnershipIsExclusive, BoundaryIsTight;
    MoveKeepsInv(s, t, if a.LockForTail? then TailLocked else Locked, Some(t), s.wedged);
  }

  lemma UnlockKeepsInv(s: State, t: Tid)
    requires Inv(s) && t in s.threads
    ensures Inv(Step(s, t, Unlock))
  {
    hide OpenTails, NothingIsLost, FirstMissing, AcceptedPrefix, Publish, OwnershipIsExclusive, BoundaryIsTight;
    var pc := s.threads[t];
    assert Knows(s, pc);
    match pc
    case TailRegistered(kind, first, count) =>
      MoveKeepsInv(s, t, TailOpen(kind, first, count), None, s.wedged);
    case _ =>
      if pc.Inside? || pc.Reported? || pc.TailLocked? { MoveKeepsInv(s, t, Idle, None, s.wedged); }
  }

  lemma FailKeepsInv(s: State, t: Tid)
    requires Inv(s) && t in s.threads
    ensures Inv(Step(s, t, Fail))
  {
    hide OpenTails, NothingIsLost, FirstMissing, AcceptedPrefix, Publish, OwnershipIsExclusive, BoundaryIsTight;
    var pc := s.threads[t];
    if pc.TailOpen? {
      MoveKeepsInv(s, t, TailDone(pc.kind), s.lock, true);
    } else if pc.Claimed? || pc.TailIssued? {
      MoveKeepsInv(s, t, Idle, None, true);
    }
  }

  lemma StepKeepsInv(s: State, t: Tid, a: Action)
    requires Inv(s)
    ensures Inv(Step(s, t, a))
  {
    hide OpenTails, NothingIsLost, FirstMissing, AcceptedPrefix, Publish, OwnershipIsExclusive, Knows, CountersCount;
    if a.WedgeElsewhere? {
      WedgeKeepsInv(s);
    } else if t in s.threads {
      var pc := s.threads[t];
      match a
      case Read => ReadKeepsInv(s, t);
      case Unlock => UnlockKeepsInv(s, t);
      case Fail => FailKeepsInv(s, t);
      case Issue(count) =>
        if s.nextIndex + count <= U64_MAX && (pc.Inside? || pc.TailLocked?) {
          IssueKeepsInv(s, t, if pc.Inside? then Claimed(s.nextIndex, count) else TailIssued(s.nextIndex, count));
        }
      case Withdraw => if pc.Claimed? || pc.TailIssued? { WithdrawKeepsInv(s, t); }
      case ReportIndices =>
        if pc.Claimed? { ClaimantReportKeepsInv(s, t); }
        if pc.TailOpen? { TailReportKeepsInv(s, t); }
      case Decide => if pc.ReadLaneFinished? { DecideKeepsInv(s, t); }
      case Register(kind) => if pc.TailIssued? { RegisterKeepsInv(s, t, kind); }
      case FinishTail => if pc.TailDone? { FinishKeepsInv(s, t); }
      case LockThroughGate => if pc.Idle? && s.lock.None? { LockKeepsInv(s, t, a); }
      case LockForTail => if pc.Idle? && s.lock.None? { LockKeepsInv(s, t, a); }
    }
  }

  lemma WedgeKeepsInv(s: State)
    requires Inv(s)
    ensures Inv(s.(wedged := true))
  {
    hide OpenTails, NothingIsLost, FirstMissing, OwnershipIsExclusive, BoundaryIsTight;
    var after := s.(wedged := true);
    forall u | u in after.threads ensures Knows(after, after.threads[u]) {
      assert Knows(s, s.threads[u]);
    }
  }

  // ---------------------------------------------------------------- every interleaving

  /** Any number of threads, all outside the protocol, on a recovered engine with a published prefix. */
  ghost predicate Start(s: State)
  {
    && s.lock == None && s.wave == s.lane == Counters(0, 0) && !s.wedged
    && 1 <= s.nextIndex && s.join == Join(s.nextIndex, {})
    && forall t :: t in s.threads ==> s.threads[t] == Idle
  }

  lemma StartIsInv(s: State)
    requires Start(s)
    ensures Inv(s)
  {
    assert OpenTails(s.threads, Wave) == {} && OpenTails(s.threads, Lane) == {};
  }

  ghost function After(s: State, schedule: seq<(Tid, Action)>): (r: State)
    requires Inv(s)
    ensures Inv(r)
    decreases |schedule|
  {
    if schedule == [] then s
    else
      var n := |schedule| - 1;
      var before := After(s, schedule[..n]);
      StepKeepsInv(before, schedule[n].0, schedule[n].1);
      Step(before, schedule[n].0, schedule[n].1)
  }

  /** The state a schedule leads to from a starting state. */
  ghost function Reached(s: State, schedule: seq<(Tid, Action)>): (r: State)
    requires Start(s)
    ensures Inv(r)
  {
    StartIsInv(s);
    After(s, schedule)
  }

  /** A claimant let through the gate holds the lock, no tail is unfinished, and every index ever
      issued is visible. */
  lemma GateAdmitsOnlyWhenQuiescent(s: State, schedule: seq<(Tid, Action)>, t: Tid)
    requires Start(s)
    ensures var r := Reached(s, schedule); t in r.threads && r.threads[t].Inside? ==>
      && r.lock == Some(t)
      && (forall u, kind :: u in r.threads ==> !OpenTail(r.threads[u], kind))
      && (forall u :: u in r.threads && u != t ==> r.threads[u] == Idle)
      && r.join == Join(r.nextIndex, {})
  {
    var r := Reached(s, schedule);
    if t in r.threads && r.threads[t].Inside? {
      assert Knows(r, r.threads[t]);
      forall u | u in r.threads && u != t ensures r.threads[u] == Idle {
        var pc := r.threads[u];
        assert !Holds(pc) && !OpenTail(pc, Wave) && !OpenTail(pc, Lane);
      }
    }
  }

  /** A gated claimant's terminal index is always inside the published prefix it gets back. */
  lemma CoverageCheckNeverFires(s: State, schedule: seq<(Tid, Action)>, t: Tid)
    requires Start(s)
    ensures var r := Reached(s, schedule); t in r.threads && r.threads[t].Reported? ==>
      r.threads[t].terminal <= r.threads[t].visible
  {
    var r := Reached(s, schedule);
    if t in r.threads { assert Knows(r, r.threads[t]); }
  }

  /** An index is invisible while the thread it was issued to has not reported it, and it has one owner. */
  lemma UnreportedStaysInvisible(s: State, schedule: seq<(Tid, Action)>, t: Tid, u: Tid, i: nat)
    requires Start(s)
    requires var r := Reached(s, schedule); t in r.threads && Owns(r.threads[t], i)
    ensures var r := Reached(s, schedule);
      && r.join.visibleNext <= i < r.nextIndex
      && (u in r.threads && Owns(r.threads[u], i) ==> u == t)
  {
    assert Inv(Reached(s, schedule));
  }

  /** When every thread is back outside and nobody wedged, exactly the issued indices are visible. */
  lemma NothingStrandedAtRest(s: State, schedule: seq<(Tid, Action)>)
    requires Start(s)
    requires var r := Reached(s, schedule); !r.wedged && forall t :: t in r.threads ==> r.threads[t] == Idle
    ensures Reached(s, schedule).join == Join(Reached(s, schedule).nextIndex, {})
  {
    RestIsQuiet(Reached(s, schedule));
  }

  /** The coverage check itself: it passes exactly when everything below the report is published or
      already waiting in the join. */
  lemma CoveredIffNoGapBelow(join: Join, nextIndex: nat, first: U64, count: nat)
    requires BoundaryIsTight(join, nextIndex) && 1 <= count && 1 <= first && first + count <= nextIndex
    requires join.visibleNext <= first
    ensures var r := Publish(join, Indices(first, count)).1;
      && r.Published?
      && (first + count - 1 <= r.visible <==> forall i :: join.visibleNext <= i < first ==> i in join.ready)
  {
    hide FirstMissing, AcceptedPrefix, Publish;
    ReportMovesBoundary(join, nextIndex, first, count);
    var after := Publish(join, Indices(first, count)).0;
    if after.visibleNext < first + count {
      assert after.visibleNext !in after.ready;
    }
  }

  // ---------------------------------------------------------------- what every thread can do

  /** The same thread takes these actions one after another. */
  ghost function Alone(s: State, t: Tid, actions: seq<Action>): (r: State)
    requires Inv(s)
    ensures Inv(r)
    decreases |actions|
  {
    if actions == [] then s
    else
      StepKeepsInv(s, t, actions[0]);
      Alone(Step(s, t, actions[0]), t, actions[1..])
  }

  const GATE := [LockThroughGate, Read, Read, Read, Read, Decide]

  lemma AloneUnfolds(s: State, t: Tid, actions: seq<Action>)
    requires Inv(s) && actions != []
    ensures Inv(Step(s, t, actions[0])) && Alone(s, t, actions) == Alone(Step(s, t, actions[0]), t, actions[1..])
  {
    StepKeepsInv(s, t, actions[0]);
  }

  lemma NothingToDo(s: State, t: Tid)
    requires Inv(s)
    ensures Alone(s, t, []) == s
  {
  }

  lemma JoinStaysWellFormed(s: State)
    requires Inv(s)
    ensures WellFormed(s.join)
  {
  }

  lemma Locks(s: State, t: Tid)
    requires Inv(s) && t in s.threads && s.threads[t].Idle? && s.lock.None?
    ensures Step(s, t, LockThroughGate) == Goto(s, t, Locked).(lock := Some(t))
    ensures Step(s, t, LockForTail) == Goto(s, t, TailLocked).(lock := Some(t))
  {
  }

  lemma Reads(s: State, t: Tid)
    requires Inv(s) && t in s.threads
    ensures s.threads[t].Locked? ==> Step(s, t, Read) == Goto(s, t, ReadWaveStarted(s.wave.started))
    ensures s.threads[t].ReadWaveStarted? ==>
      Step(s, t, Read) == Goto(s, t, ReadWaveFinished(s.threads[t].ws, s.wave.finished))
    ensures s.threads[t].ReadWaveFinished? ==>
      Step(s, t, Read) == Goto(s, t, ReadLaneStarted(s.threads[t].ws, s.threads[t].wf, s.lane.started))
    ensures s.threads[t].ReadLaneStarted? ==>
      Step(s, t, Read) ==
        Goto(s, t, ReadLaneFinished(s.threads[t].ws, s.threads[t].wf, s.threads[t].ls, s.lane.finished))
  {
  }

  lemma Decides(s: State, t: Tid)
    requires Inv(s) && t in s.threads && s.threads[t].ReadLaneFinished?
    ensures var pc := s.threads[t];
      Step(s, t, Decide) ==
        (if pc.ws == pc.wf && pc.ls == pc.lf && !s.wedged then Goto(s, t, Inside) else Released(s, t, Idle))
  {
  }

  /** The counters are equal exactly when no tail is open. */
  lemma CountersEqualIffQuiescent(s: State)
    requires Inv(s)
    ensures s.wave.started == s.wave.finished && s.lane.started == s.lane.finished <==> NoOpenTails(s.threads)
  {
    hide BoundaryIsTight, OwnershipIsExclusive, NothingIsLost, Knows, LockIsExclusive;
    if |OpenTails(s.threads, Wave)| == 0 && |OpenTails(s.threads, Lane)| == 0 {
      NoneOpen(s.threads);
    }
    if NoOpenTails(s.threads) {
      assert OpenTails(s.threads, Wave) == {} && OpenTails(s.threads, Lane) == {};
    }
  }

  /** On a free lock a claimant gets in exactly when no tail is open and the engine is not wedged;
      otherwise it leaves everything as it found it. */
  lemma GateAdmitsIff(s: State, t: Tid)
    requires Inv(s) && s.lock.None? && t in s.threads && s.threads[t].Idle?
    ensures Alone(s, t, GATE) ==
      if NoOpenTails(s.threads) && !s.wedged then Goto(s, t, Inside).(lock := Some(t)) else s
  {
    hide Inv, Step, NoOpenTails, Alone, WellFormed;
    JoinStaysWellFormed(s);
    CountersEqualIffQuiescent(s);
    Locks(s, t);
    AloneUnfolds(s, t, GATE);
    var s1 := Step(s, t, LockThroughGate);
    Reads(s1, t);
    AloneUnfolds(s1, t, GATE[1..]);
    var s2 := Step(s1, t, Read);
    Reads(s2, t);
    AloneUnfolds(s2, t, GATE[2..]);
    var s3 := Step(s2, t, Read);
    Reads(s3, t);
    AloneUnfolds(s3, t, GATE[3..]);
    var s4 := Step(s3, t, Read);
    Reads(s4, t);
    AloneUnfolds(s4, t, GATE[4..]);
    var s5 := Step(s4, t, Read);
    Decides(s5, t);
    AloneUnfolds(s5, t, GATE[5..]);
    NothingToDo(Step(s5, t, Decide), t);
    assert GATE[1..][1..] == GATE[2..] && GATE[2..][1..] == GATE[3..] && GATE[3..][1..] == GATE[4..];
    assert GATE[4..][1..] == GATE[5..] && GATE[5..][1..] == [];
    assert s.threads[t := Idle] == s.threads;
  }

  lemma AloneTwo(s: State, t: Tid, a: Action, b: Action)
    requires Inv(s)
    ensures Inv(Step(s, t, a)) && Alone(s, t, [a, b]) == Step(Step(s, t, a), t, b)
  {
    hide Inv, Step, WellFormed, Alone;
    JoinStaysWellFormed(s);
    AloneUnfolds(s, t, [a, b]);
    var m := Step(s, t, a);
    JoinStaysWellFormed(m);
    assert [a, b][1..] == [b] && [b][1..] == [];
    AloneUnfolds(m, t, [b]);
    NothingToDo(Step(m, t, b), t);
  }

  lemma Issues(s: State, t: Tid, count: nat)
    requires Inv(s) && t in s.threads && s.nextIndex + count <= U64_MAX
    ensures s.threads[t].Inside? ==>
      Step(s, t, Issue(count)) == Goto(s, t, Claimed(s.nextIndex, count)).(nextIndex := s.nextIndex + count)
    ensures s.threads[t].TailLocked? ==>
      Step(s, t, Issue(count)) == Goto(s, t, TailIssued(s.nextIndex, count)).(nextIndex := s.nextIndex + count)
  {
  }

  /** A claimant's report is accepted and publishes everything up to its terminal index. */
  lemma ClaimantReports(s: State, t: Tid)
    requires Inv(s) && t in s.threads && s.threads[t].Claimed?
    ensures Step(s, t, ReportIndices) ==
      Goto(s, t, Reported(s.nextIndex - 1, s.nextIndex - 1)).(join := Join(s.nextIndex, {}))
  {
    hide OpenTails, NothingIsLost, FirstMissing, AcceptedPrefix, Publish, OwnershipIsExclusive;
    var own := s.threads[t];
    assert Knows(s, own);
    ReportKeepsOwnership(s, t, Reported(0, 0));
    ClaimantIsCovered(own.first, own.count, s.nextIndex);
    var (join, r) := Publish(s.join, Indices(own.first, own.count));
    assert join.ready == {};
  }

  /** What a claimant inside the gate can do with any number of indices: commit them, which publishes
      exactly them and leaves; withdraw, which leaves no trace; or fail, which wedges the engine. */
  lemma ClaimantOutcomes(s: State, t: Tid, count: nat)
    requires Inv(s) && t in s.threads && s.threads[t].Inside? && s.nextIndex + count <= U64_MAX
    ensures var last := s.nextIndex + count - 1;
      var reported := Alone(s, t, [Issue(count), ReportIndices]);
      && reported == Goto(s, t, Reported(last, last)).(nextIndex := last + 1, join := Join(last + 1, {}))
      && Step(reported, t, Unlock) == Released(s, t, Idle).(nextIndex := last + 1, join := Join(last + 1, {}))
    ensures Alone(s, t, [Issue(count), Withdraw]) == Released(s, t, Idle)
    ensures Alone(s, t, [Issue(count), Fail]) ==
      Released(s, t, Idle).(nextIndex := s.nextIndex + count, wedged := true)
    ensures Step(s, t, Unlock) == Released(s, t, Idle)
  {
    hide Inv, Step, WellFormed, Alone;
    JoinStaysWellFormed(s);
    Issues(s, t, count);
    AloneTwo(s, t, Issue(count), ReportIndices);
    AloneTwo(s, t, Issue(count), Withdraw);
    AloneTwo(s, t, Issue(count), Fail);
    ClaimantLeaves(s, t, count);
    StepKeepsInv(Step(s, t, Issue(count)), t, ReportIndices);
    JoinStaysWellFormed(Alone(s, t, [Issue(count), ReportIndices]));
    Unlocks(Alone(s, t, [Issue(count), ReportIndices]), t);
    Unlocks(s, t);
  }

  lemma Unlocks(s: State, t: Tid)
    requires Inv(s) && t in s.threads
    ensures s.threads[t].Inside? || s.threads[t].TailLocked? ==> Step(s, t, Unlock) == Released(s, t, Idle)
    ensures s.threads[t].Reported? ==> Step(s, t, Unlock) == Released(s, t, Idle)
    ensures s.threads[t].TailRegistered? ==>
      var pc := s.threads[t]; Step(s, t, Unlock) == Released(s, t, TailOpen(pc.kind, pc.first, pc.count))
  {
    assert Knows(s, s.threads[t]);
  }

  lemma ClaimantLeaves(s: State, t: Tid, count: nat)
    requires Inv(s) && t in s.threads && s.threads[t].Inside? && s.nextIndex + count <= U64_MAX
    ensures var claimed := Goto(s, t, Claimed(s.nextIndex, count)).(nextIndex := s.nextIndex + count);
      var last := s.nextIndex + count - 1;
      && Inv(claimed) && WellFormed(claimed.join)
      && Step(claimed, t, ReportIndices) ==
           Goto(s, t, Reported(last, last)).(nextIndex := last + 1, join := Join(last + 1, {}))
      && Step(claimed, t, Withdraw) == Released(s, t, Idle)
      && Step(claimed, t, Fail) == Released(s, t, Idle).(nextIndex := s.nextIndex + count, wedged := true)
  {
    hide Inv, Publish, WellFormed;
    JoinStaysWellFormed(s);
    StepKeepsInv(s, t, Issue(count));
    Issues(s, t, count);
    var claimed := Step(s, t, Issue(count));
    JoinStaysWellFormed(claimed);
    ClaimantReports(claimed, t);
  }

  lemma Registers(s: State, t: Tid, kind: Kind)
    requires Inv(s) && t in s.threads && s.threads[t].TailIssued?
    ensures var pc, c := s.threads[t], CountersOf(s, kind);
      Step(s, t, Register(kind)) ==
        WithCounters(Goto(s, t, TailRegistered(kind, pc.first, pc.count)), kind, Counters(c.started + 1, c.finished))
    ensures Step(s, t, Withdraw) == Released(s, t, Idle).(nextIndex := s.threads[t].first)
    ensures Step(s, t, Fail) == Released(s, t, Idle).(wedged := true)
  {
  }

  /** On a free lock a strategy can issue any number of indices and leave with an open, counted tail
      that owns exactly them; or withdraw, which leaves no trace. */
  lemma TailOpens(s: State, t: Tid, kind: Kind, count: nat)
    requires Inv(s) && s.lock.None? && t in s.threads && s.threads[t].Idle? && s.nextIndex + count <= U64_MAX
    ensures var c := CountersOf(s, kind);
      Alone(s, t, [LockForTail, Issue(count), Register(kind), Unlock]) ==
        WithCounters(Goto(s, t, TailOpen(kind, s.nextIndex, count)).(nextIndex := s.nextIndex + count),
                     kind, Counters(c.started + 1, c.finished))
    ensures Alone(s, t, [LockForTail, Issue(count), Withdraw]) == s
  {
    hide Inv, Step, WellFormed, Alone;
    var opening := [LockForTail, Issue(count), Register(kind), Unlock];
    var withdrawing := [LockForTail, Issue(count), Withdraw];
    JoinStaysWellFormed(s);
    Locks(s, t);
    AloneUnfolds(s, t, opening);
    AloneUnfolds(s, t, withdrawing);
    var s1 := Step(s, t, LockForTail);
    Issues(s1, t, count);
    assert opening[1..] == [Issue(count), Register(kind), Unlock] && withdrawing[1..] == [Issue(count), Withdraw];
    AloneUnfolds(s1, t, [Issue(count), Register(kind), Unlock]);
    AloneTwo(s1, t, Issue(count), Withdraw);
    var s2 := Step(s1, t, Issue(count));
    assert [Issue(count), Register(kind), Unlock][1..] == [Register(kind), Unlock];
    Registers(s2, t, kind);
    AloneTwo(s2, t, Register(kind), Unlock);
    Unlocks(Step(s2, t, Register(kind)), t);
    assert s.threads[t := Idle] == s.threads;
  }

  lemma TailSteps(s: State, t: Tid)
    requires Inv(s) && t in s.threads
    ensures s.threads[t].TailOpen? ==>
      var pc := s.threads[t];
      && pc.first + pc.count <= U64_MAX
      && Step(s, t, ReportIndices) ==
           Goto(s, t, TailDone(pc.kind)).(join := Publish(s.join, Indices(pc.first, pc.count)).0)
      && Step(s, t, Fail) == Goto(s, t, TailDone(pc.kind)).(wedged := true)
    ensures s.threads[t].TailDone? ==>
      var kind := s.threads[t].kind; var c := CountersOf(s, kind);
      Step(s, t, FinishTail) == WithCounters(Goto(s, t, Idle), kind, Counters(c.started, c.finished + 1))
  {
    hide OpenTails, NothingIsLost, FirstMissing, AcceptedPrefix, Publish, OwnershipIsExclusive;
    assert Knows(s, s.threads[t]);
    if s.threads[t].TailOpen? { ReportKeepsOwnership(s, t, TailDone(s.threads[t].kind)); }
  }

  /** Whatever else is going on, an open tail can report and finish: its indices become visible or wait
      in the join, and its counter closes.  Giving up instead wedges the engine and publishes nothing. */
  lemma TailFinishes(s: State, t: Tid)
    requires Inv(s) && t in s.threads && s.threads[t].TailOpen?
    ensures var pc := s.threads[t]; var c := CountersOf(s, pc.kind);
      var closed := Counters(c.started, c.finished + 1);
      && (var done := Alone(s, t, [ReportIndices, FinishTail]);
          && done == WithCounters(Goto(s, t, Idle).(join := done.join), pc.kind, closed)
          && (forall i :: pc.first <= i < pc.first + pc.count ==> i < done.join.visibleNext || i in done.join.ready)
          && (forall i :: i in done.join.ready ==> i in s.join.ready || pc.first <= i < pc.first + pc.count)
          && (forall i :: s.join.visibleNext <= i < done.join.visibleNext ==>
                i in s.join.ready || pc.first <= i < pc.first + pc.count))
      && Alone(s, t, [Fail, FinishTail]) == WithCounters(Goto(s, t, Idle).(wedged := true), pc.kind, closed)
  {
    hide Inv, Step, WellFormed, Alone, Publish;
    JoinStaysWellFormed(s);
    TailSteps(s, t);
    AloneTwo(s, t, ReportIndices, FinishTail);
    AloneTwo(s, t, Fail, FinishTail);
    TailSteps(Step(s, t, ReportIndices), t);
    TailSteps(Step(s, t, Fail), t);
    TailReportCovers(s, t);
  }

  lemma TailReportCovers(s: State, t: Tid)
    requires Inv(s) && t in s.threads && s.threads[t].TailOpen? && s.threads[t].first + s.threads[t].count <= U64_MAX
    ensures var pc := s.threads[t]; var join := Publish(s.join, Indices(pc.first, pc.count)).0;
      && (forall i :: pc.first <= i < pc.first + pc.count ==> i < join.visibleNext || i in join.ready)
      && (forall i :: i in join.ready ==> i in s.join.ready || pc.first <= i < pc.first + pc.count)
      && (forall i :: s.join.visibleNext <= i < join.visibleNext ==>
            i in s.join.ready || pc.first <= i < pc.first + pc.count)
  {
    hide FirstMissing, AcceptedPrefix, Publish, CountersCount, Knows, LockIsExclusive, NothingIsLost;
    var pc := s.threads[t];
    if pc.count == 0 {
      ReportMovesBoundary(s.join, s.nextIndex, 1, 0);
      assert Indices(pc.first, 0) == Indices(1, 0);
    } else {
      assert Owns(pc, pc.first) && Owns(pc, pc.first + pc.count - 1);
      ReportMovesBoundary(s.join, s.nextIndex, pc.first, pc.count);
    }
  }

  /** A wedge is final, and a wedged engine lets nobody in. */
  lemma WedgedAdmitsNobody(s: State, t: Tid, a: Action, u: Tid)
    requires Inv(s) && s.wedged
    ensures var r := Step(s, t, a);
      r.wedged && (u in r.threads && r.threads[u].Inside? ==> u in s.threads && s.threads[u].Inside?)
  {
    hide Inv, Publish, WellFormed;
    JoinStaysWellFormed(s);
  }

  // ---------------------------------------------------------------- the gate among other threads

  /** The actions of one thread in a schedule, in order. */
  ghost function Own(schedule: seq<(Tid, Action)>, t: Tid): seq<Action>
  {
    if schedule == [] then []
    else
      var n := |schedule| - 1;
      Own(schedule[..n], t) + if schedule[n].0 == t then [schedule[n].1] else []
  }

  /** Where a claimant that holds the lock is after `k` of its gate actions, when the counters stand still. */
  ghost function GatePc(s: State, k: nat): Pc
  {
    if k == 0 then Locked
    else if k == 1 then ReadWaveStarted(s.wave.started)
    else if k == 2 then ReadWaveFinished(s.wave.started, s.wave.finished)
    else if k == 3 then ReadLaneStarted(s.wave.started, s.wave.finished, s.lane.started)
    else if k == 4 then ReadLaneFinished(s.wave.started, s.wave.finished, s.lane.started, s.lane.finished)
    else Inside
  }

  lemma OthersAreOutside(s: State, t: Tid, u: Tid)
    requires Inv(s) && s.lock == Some(t) && NoOpenTails(s.threads) && u in s.threads && u != t
    ensures s.threads[u].Idle?
  {
    var pc := s.threads[u];
    assert !Holds(pc) && !OpenTail(pc, Wave) && !OpenTail(pc, Lane);
  }

  lemma OthersAreStuck(s: State, u: Tid, a: Action)
    requires WellFormed(s.join) && s.lock.Some? && !a.WedgeElsewhere? && (u in s.threads ==> s.threads[u].Idle?)
    ensures Step(s, u, a) == s
  {
  }

  lemma GateAction(s: State, t: Tid, k: nat)
    requires Inv(s) && t in s.threads && s.threads[t] == GatePc(s, k) && k < 5 && !s.wedged && NoOpenTails(s.threads)
    ensures Step(s, t, GATE[k + 1]) == Goto(s, t, GatePc(s, k + 1))
  {
    hide Inv, Step, NoOpenTails;
    CountersEqualIffQuiescent(s);
    if k < 4 { Reads(s, t); } else { Decides(s, t); }
  }

  /** A claimant that locks a quiescent engine gets in, however the other threads are scheduled between
      its reads: none of them can move until it leaves. */
  lemma {:induction false} QuiescentGateNeverTurnsAway(s: State, schedule: seq<(Tid, Action)>, t: Tid)
    requires Inv(s) && t in s.threads && s.threads[t] == Locked && !s.wedged && NoOpenTails(s.threads)
    requires Own(schedule, t) <= GATE[1..]
    requires forall k :: 0 <= k < |schedule| ==> !schedule[k].1.WedgeElsewhere?
    ensures After(s, schedule) == Goto(s, t, GatePc(s, |Own(schedule, t)|))
    ensures Own(schedule, t) == GATE[1..] ==> After(s, schedule).threads[t] == Inside
  {
    hide Inv, Step, NoOpenTails, WellFormed;
    assert s.lock == Some(t) by { HolderHasLock(s, t); }
    if schedule == [] {
      assert s.threads[t := Locked] == s.threads;
    } else {
      var n := |schedule| - 1;
      var (u, a) := schedule[n];
      QuiescentGateNeverTurnsAway(s, schedule[..n], t);
      var r := After(s, schedule[..n]);
      JoinStaysWellFormed(r);
      var k := |Own(schedule[..n], t)|;
      StillQuiescent(s, t, k);
      if u == t {
        assert Own(schedule, t)[k] == a == GATE[1..][k];
        GateAction(r, t, k);
        assert r.threads[t := GatePc(s, k + 1)] == s.threads[t := GatePc(s, k + 1)];
      } else {
        if u in r.threads { OthersAreOutside(r, t, u); }
        OthersAreStuck(r, u, a);
      }
    }
  }

  lemma HolderHasLock(s: State, t: Tid)
    requires Inv(s) && t in s.threads && Holds(s.threads[t])
    ensures s.lock == Some(t)
  {
  }

  lemma StillQuiescent(s: State, t: Tid, k: nat)
    requires t in s.threads && NoOpenTails(s.threads)
    ensures NoOpenTails(Goto(s, t, GatePc(s, k)).threads)
  {
  }

  // ---------------------------------------------------------------- coming to rest

  /** A step that takes a thread towards leaving, without wedging. */
  function Onward(pc: Pc): Action
  {
    match pc
    case ReadLaneFinished(_, _, _, _) => Decide
    case Claimed(_, _) => ReportIndices
    case TailIssued(_, _) => Register(Wave)
    case TailOpen(_, _, _) => ReportIndices
    case TailDone(_) => FinishTail
    case Inside => Unlock
    case Reported(_, _) => Unlock
    case TailLocked => Unlock
    case TailRegistered(_, _, _) => Unlock
    case _ => Read
  }

  /** How many such steps are left at most. */
  function StepsLeft(pc: Pc): nat
  {
    match pc
    case Idle => 0
    case Locked => 6
    case ReadWaveStarted(_) => 5
    case ReadWaveFinished(_, _) => 4
    case ReadLaneStarted(_, _, _) => 3
    case ReadLaneFinished(_, _, _, _) => 2
    case Inside => 1
    case Claimed(_, _) => 2
    case Reported(_, _) => 1
    case TailLocked => 1
    case TailIssued(_, _) => 4
    case TailRegistered(_, _, _) => 3
    case TailOpen(_, _, _) => 2
    case TailDone(_) => 1
  }

  lemma OnwardGoesOn(s: State, t: Tid)
    requires Inv(s) && t in s.threads && !s.threads[t].Idle?
    ensures var r := Step(s, t, Onward(s.threads[t]));
      && r.threads.Keys == s.threads.Keys && (forall u :: u in s.threads && u != t ==> r.threads[u] == s.threads[u])
      && StepsLeft(r.threads[t]) < StepsLeft(s.threads[t])
      && r.wedged == s.wedged && r.nextIndex == s.nextIndex
  {
    hide Inv, Step, WellFormed;
    JoinStaysWellFormed(s);
    var pc := s.threads[t];
    match pc
    case ReadLaneFinished(_, _, _, _) => Decides(s, t);
    case Claimed(_, _) => ClaimantReports(s, t);
    case TailIssued(_, _) => Registers(s, t, Wave);
    case TailOpen(_, _, _) => TailSteps(s, t);
    case TailDone(_) => TailSteps(s, t);
    case Inside => Unlocks(s, t);
    case Reported(_, _) => Unlocks(s, t);
    case TailLocked => Unlocks(s, t);
    case TailRegistered(_, _, _) => Unlocks(s, t);
    case _ => Reads(s, t);
  }

  lemma {:induction false} AfterConcat(s: State, a: seq<(Tid, Action)>, b: seq<(Tid, Action)>)
    requires Inv(s)
    ensures After(s, a + b) == After(After(s, a), b)
  {
    hide Inv, Step, WellFormed;
    if b == [] {
      assert a + b == a;
    } else {
      var n := |b| - 1;
      AfterConcat(s, a, b[..n]);
      assert (a + b)[..|a + b| - 1] == a + b[..n];
    }
  }

  /** A thread that is in the protocol never blocks: it can leave on its own. */
  lemma {:induction false} ThreadCanLeave(s: State, t: Tid) returns (schedule: seq<(Tid, Action)>)
    requires Inv(s) && t in s.threads
    ensures var r := After(s, schedule);
      r.threads == s.threads[t := Idle] && r.wedged == s.wedged && r.nextIndex == s.nextIndex
    decreases StepsLeft(s.threads[t])
  {
    hide Inv, Step, WellFormed, StepsLeft, Onward;
    if s.threads[t].Idle? {
      schedule := [];
      assert s.threads[t := Idle] == s.threads;
    } else {
      OnwardGoesOn(s, t);
      StepKeepsInv(s, t, Onward(s.threads[t]));
      var one := [(t, Onward(s.threads[t]))];
      OneStep(s, t, Onward(s.threads[t]));
      var rest := ThreadCanLeave(After(s, one), t);
      schedule := one + rest;
      AfterConcat(s, one, rest);
    }
  }

  lemma OneStep(s: State, t: Tid, a: Action)
    requires Inv(s)
    ensures WellFormed(s.join) && After(s, [(t, a)]) == Step(s, t, a)
  {
    hide Step;
    assert [(t, a)][..0] == [];
  }

  ghost function Busy(threads: map<Tid, Pc>): set<Tid>
  {
    set t | t in threads && !threads[t].Idle?
  }

  /** From every state, reachable or merely consistent, the threads can all leave without wedging the
      engine; and then everything issued is visible, so no index is ever stranded for good. */
  lemma {:induction false} EverythingCanComeToRest(s: State) returns (schedule: seq<(Tid, Action)>)
    requires Inv(s)
    ensures var r := After(s, schedule);
      && (forall t :: t in r.threads ==> r.threads[t] == Idle)
      && r.wedged == s.wedged && r.nextIndex == s.nextIndex
      && (!s.wedged ==> r.join == Join(s.nextIndex, {}))
    decreases |Busy(s.threads)|
  {
    hide Inv, Step, WellFormed;
    if t :| t in Busy(s.threads) {
      var first := ThreadCanLeave(s, t);
      var m := After(s, first);
      assert Busy(m.threads) == Busy(s.threads) - {t};
      var rest := EverythingCanComeToRest(m);
      schedule := first + rest;
      AfterConcat(s, first, rest);
    } else {
      schedule := [];
      forall t | t in s.threads ensures s.threads[t] == Idle { assert t !in Busy(s.threads); }
      if !s.wedged { RestIsQuiet(s); }
    }
  }

  lemma RestIsQuiet(s: State)
    requires Inv(s) && !s.wedged && forall t :: t in s.threads ==> s.threads[t] == Idle
    ensures s.join == Join(s.nextIndex, {})
  {
    assert !Owned(s.threads, s.join.visibleNext);
    assert s.join.ready == {};
  }
}
