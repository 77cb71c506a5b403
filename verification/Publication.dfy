/**
 The publication join of crates/engine/src/engine_commit_coordinator.rs.

 Commit strategies report the exact indices whose durability and apply work is complete, in any
 order.  The coordinator alone advances the boundary that readers observe, and only over the
 contiguous prefix of reported indices.
 */
module Publication {
  import opened Primitives

  // ---------------------------------------------------------------- contiguous prefixes

  /** The least index at or above `from` that is not in `reported`. */
  ghost function FirstMissing(from: nat, reported: set<nat>): (n: nat)
    ensures from <= n && n !in reported
    ensures forall i :: from <= i < n ==> i in reported
    decreases |reported|
  {
    if from !in reported then from
    else
      var rest := reported - {from};
      var n := FirstMissing(from + 1, rest);
      assert n !in reported by { assert n != from; }
      assert forall i :: from <= i < n ==> i in reported by {
        forall i | from <= i < n ensures i in reported {
          if i != from { assert i in rest; }
        }
      }
      n
  }

  lemma FirstMissingUnique(from: nat, reported: set<nat>, n: nat)
    requires from <= n && n !in reported
    requires forall i :: from <= i < n ==> i in reported
    ensures FirstMissing(from, reported) == n
  {
    var m := FirstMissing(from, reported);
    assert !(m < n) && !(n < m);
  }

  // ---------------------------------------------------------------- the join

  /** `ready` holds completed indices stranded above a lower unfinished one. */
  datatype Join = Join(visibleNext: U64, ready: set<nat>)

  const EMPTY_JOIN := Join(1, {})

  datatype PublishResult = Published(visible: U64) | OutsideDomain(index: U64)

  /** Index 0 was never issued and u64::MAX could not be stepped past. */
  predicate Publishable(index: U64) { 0 < index < U64_MAX }

  /** The reported indices up to, and not including, the first that lies outside the domain. */
  function AcceptedPrefix(indices: seq<U64>): (prefix: seq<U64>)
    ensures prefix <= indices
    ensures forall k :: 0 <= k < |prefix| ==> Publishable(prefix[k])
    ensures |prefix| < |indices| ==> !Publishable(indices[|prefix|])
  {
    if indices == [] || !Publishable(indices[0]) then []
    else [indices[0]] + AcceptedPrefix(indices[1..])
  }

  ghost function Accepted(indices: seq<U64>): set<nat>
  {
    set i | i in AcceptedPrefix(indices)
  }

  ghost function AtOrAbove(s: set<nat>, n: nat): set<nat>
  {
    set i | i in s && n <= i
  }

  /** What one report does to the join. */
  ghost function Publish(j: Join, indices: seq<U64>): (Join, PublishResult)
    requires WellFormed(j)
  {
    var accepted := AcceptedPrefix(indices);
    var ready := j.ready + AtOrAbove(Accepted(indices), j.visibleNext);
    if |accepted| < |indices| then
      (Join(j.visibleNext, ready), OutsideDomain(indices[|accepted|]))
    else
      var next := FirstMissing(j.visibleNext, ready);
      MissingIsRepresentable(j, ready);
      (Join(next, AtOrAbove(ready, next)), Published(next - 1))
  }

  /** Every stranded index lies strictly inside the domain and at or above the boundary. */
  ghost predicate WellFormed(j: Join)
  {
    && 1 <= j.visibleNext
    && forall i :: i in j.ready ==> j.visibleNext <= i < U64_MAX
  }

  /** Stepping the boundary over the ready prefix never leaves the u64 range. */
  lemma MissingIsRepresentable(j: Join, ready: set<nat>)
    requires 1 <= j.visibleNext
    requires forall i :: i in ready ==> i < U64_MAX
    ensures 1 <= FirstMissing(j.visibleNext, ready) <= U64_MAX
  {
    var n := FirstMissing(j.visibleNext, ready);
    if j.visibleNext < n { assert n - 1 in ready; }
  }

  lemma PublishKeepsWellFormed(j: Join, indices: seq<U64>)
    requires WellFormed(j)
    ensures WellFormed(Publish(j, indices).0)
    ensures j.visibleNext <= Publish(j, indices).0.visibleNext
  {
    var ready := j.ready + AtOrAbove(Accepted(indices), j.visibleNext);
    assert forall i :: i in ready ==> i < U64_MAX;
    MissingIsRepresentable(j, ready);
  }

  // ---------------------------------------------------------------- whole runs

  /** A publishable index that is visible already or waits to be. */
  ghost predicate KeptIfPublishable(j: Join, index: U64)
  {
    Publishable(index) && (j.visibleNext <= index ==> index in j.ready)
  }

  /** A report is answered with the new boundary exactly when all its indices can be published; else it
      names the first that cannot, moves nothing, and keeps what came before it. */
  lemma ReportAnswer(j: Join, indices: seq<U64>)
    requires WellFormed(j)
    ensures var (after, r) := Publish(j, indices);
      && (r.Published? <==> forall k :: 0 <= k < |indices| ==> 0 < indices[k] < U64_MAX)
      && (r.Published? ==> r.visible == after.visibleNext - 1)
      && (r.OutsideDomain? ==>
            && after.visibleNext == j.visibleNext && j.ready <= after.ready
            && exists k :: 0 <= k < |indices| && indices[k] == r.index && indices[k] in {0, U64_MAX}
                           && forall i :: 0 <= i < k ==> KeptIfPublishable(after, indices[i]))
  {
    var prefix := AcceptedPrefix(indices);
    if |prefix| < |indices| {
      forall i | 0 <= i < |prefix| ensures KeptIfPublishable(Publish(j, indices).0, indices[i]) {
        assert prefix[i] == indices[i] && indices[i] in Accepted(indices);
      }
    } else {
      assert prefix == indices;
    }
  }

  /** Snapshot installation replaces the authority and forgets stranded indices. */
  function InstallSnapshot(lastIncluded: U64): (j: Join)
  {
    Join(SaturatingIncrement(lastIncluded), {})
  }

  datatype Event = Report(indices: seq<U64>) | Install(lastIncluded: U64)

  ghost function After(events: seq<Event>): (j: Join)
    ensures WellFormed(j)
  {
    if events == [] then EMPTY_JOIN
    else
      var before := After(events[..|events| - 1]);
      match events[|events| - 1]
      case Report(indices) =>
        PublishKeepsWellFormed(before, indices);
        Publish(before, indices).0
      case Install(last) => InstallSnapshot(last)
  }

  /** First index above the most recently installed base. */
  ghost function Start(events: seq<Event>): (n: nat)
    ensures 1 <= n <= U64_MAX
  {
    if events == [] then 1
    else match events[|events| - 1]
      case Report(_) => Start(events[..|events| - 1])
      case Install(last) => SaturatingIncrement(last)
  }

  /** Every accepted index reported since the most recent install, in any call and any order. */
  ghost function ReportedSinceInstall(events: seq<Event>): set<nat>
  {
    if events == [] then {}
    else match events[|events| - 1]
      case Report(indices) =>
        ReportedSinceInstall(events[..|events| - 1]) + Accepted(indices)
      case Install(_) => {}
  }

  /** What holds after every run, successful or not: nothing visible was unreported, and nothing
      reported is ever lost. */
  lemma {:induction false} JoinTracksReports(events: seq<Event>)
    ensures Start(events) <= After(events).visibleNext
    ensures forall i :: Start(events) <= i < After(events).visibleNext ==> i in ReportedSinceInstall(events)
    ensures After(events).ready == AtOrAbove(ReportedSinceInstall(events), After(events).visibleNext)
  {
    if events != [] {
      var prior := events[..|events| - 1];
      JoinTracksReports(prior);
      match events[|events| - 1]
      case Install(_) =>
      case Report(indices) =>
        var before := After(prior);
        PublishKeepsWellFormed(before, indices);
        var ready := before.ready + AtOrAbove(Accepted(indices), before.visibleNext);
        assert ready <= ReportedSinceInstall(events);
        assert After(events) == Publish(before, indices).0;
        assert forall i :: before.visibleNext <= i < After(events).visibleNext ==> i in ready;
    }
  }

  /** Each successful report leaves visibility at the longest contiguous prefix of everything
      reported above the installed base. */
  lemma VisibleIsLongestReportedPrefix(events: seq<Event>, indices: seq<U64>)
    requires AcceptedPrefix(indices) == indices
    ensures After(events + [Report(indices)]).visibleNext
         == FirstMissing(Start(events), ReportedSinceInstall(events) + Accepted(indices))
  {
    var run := events + [Report(indices)];
    assert run[..|run| - 1] == events;
    JoinTracksReports(events);
    JoinTracksReports(run);
    FirstMissingUnique(Start(run), ReportedSinceInstall(run), After(run).visibleNext);
  }

  /** Visibility never moves back over a stretch of reports, duplicated and reordered as they may be. */
  lemma {:induction false} VisibilityIsMonotone(events: seq<Event>, reports: seq<Event>)
    requires forall k :: 0 <= k < |reports| ==> reports[k].Report?
    ensures After(events).visibleNext <= After(events + reports).visibleNext
    decreases |reports|
  {
    if reports == [] {
      assert events + reports == events;
    } else {
      var last := |reports| - 1;
      var run := events + reports;
      var before := After(events + reports[..last]);
      VisibilityIsMonotone(events, reports[..last]);
      assert run[..|run| - 1] == events + reports[..last];
      PublishKeepsWellFormed(before, reports[last].indices);
      assert After(run) == Publish(before, reports[last].indices).0;
    }
  }

  /** Two runs that report the same indices after the same install agree on what is visible once
      both end in a successful report, whatever the order, grouping and duplication. */
  lemma ReportOrderIsIrrelevant(a: seq<Event>, b: seq<Event>, lastA: seq<U64>, lastB: seq<U64>)
    requires AcceptedPrefix(lastA) == lastA && AcceptedPrefix(lastB) == lastB
    requires Start(a) == Start(b)
    requires ReportedSinceInstall(a) + Accepted(lastA) == ReportedSinceInstall(b) + Accepted(lastB)
    ensures After(a + [Report(lastA)]) == After(b + [Report(lastB)])
  {
    VisibleIsLongestReportedPrefix(a, lastA);
    VisibleIsLongestReportedPrefix(b, lastB);
    var runA, runB := a + [Report(lastA)], b + [Report(lastB)];
    assert runA[..|runA| - 1] == a && runB[..|runB| - 1] == b;
    JoinTracksReports(runA);
    JoinTracksReports(runB);
  }

  // ---------------------------------------------------------------- reader-visible stores

  /** An immutable recovery read generation, describing the prefix ending at `visibleThrough`. */
  datatype Generation = Generation(visibleThrough: U64, tableOid: nat)

  /** The three cells a lock-free reader loads. */
  datatype ReaderCells = ReaderCells(committedSeq: U64, sealed: Option<Generation>, sealedTableOid: nat)

  /** No reader may bind a sealed generation that does not describe the committed prefix. */
  predicate Coherent(cells: ReaderCells)
  {
    && (cells.sealed.Some? ==> cells.sealed.value.visibleThrough == cells.committedSeq)
    && (cells.sealedTableOid != 0 ==> cells.sealed.Some?)
  }

  /** The publication coordinator together with the reader cells it alone stores to.  `observed` is
      the sequence of reader-visible states, one for each single atomic store. */
  class CommitPublicationCoordinator {
    var visibleNext: U64
    var ready: set<nat>
    var committedSeq: U64
    var sealed: Option<Generation>
    var sealedTableOid: nat
    ghost var observed: seq<ReaderCells>

    ghost function View(): Join
      reads this
    {
      Join(visibleNext, ready)
    }

    ghost function Cells(): ReaderCells
      reads this
    {
      ReaderCells(committedSeq, sealed, sealedTableOid)
    }

    /** Between calls the reader boundary is the join's, and every store ever made was coherent. */
    ghost predicate Valid()
      reads this
    {
      && WellFormed(View())
      && committedSeq == visibleNext - 1
      && observed != [] && observed[|observed| - 1] == Cells()
      && forall k :: 0 <= k < |observed| ==> Coherent(observed[k])
    }

    constructor ()
      ensures Valid() && View() == EMPTY_JOIN && Cells() == ReaderCells(0, None, 0)
    {
      visibleNext, ready := 1, {};
      committedSeq, sealed, sealedTableOid := 0, None, 0;
      observed := [ReaderCells(0, None, 0)];
    }

    method StoreTableOid(oid: nat)
      modifies this`sealedTableOid, this`observed
      ensures sealedTableOid == oid && observed == old(observed) + [Cells()]
    {
      sealedTableOid := oid;
      observed := observed + [Cells()];
    }

    method StoreSealed(generation: Option<Generation>)
      modifies this`sealed, this`observed
      ensures sealed == generation && observed == old(observed) + [Cells()]
    {
      sealed := generation;
      observed := observed + [Cells()];
    }

    method StoreCommittedSeq(visible: U64)
      modifies this`committedSeq, this`observed
      ensures committedSeq == visible && observed == old(observed) + [Cells()]
    {
      committedSeq := visible;
      observed := observed + [Cells()];
    }

    /** Remember each reported index that is not yet visible, stopping at one outside the domain. */
    method InsertReported(indices: seq<U64>) returns (rejected: Option<U64>)
      requires WellFormed(View())
      modifies this`ready
      ensures WellFormed(View())
      ensures ready == old(ready) + AtOrAbove(Accepted(indices), visibleNext)
      ensures var n := |AcceptedPrefix(indices)|;
        rejected == if n < |indices| then Some(indices[n]) else None
    {
      ghost var before, accepted := ready, AcceptedPrefix(indices);
      var k := 0;
      while k < |indices|
        invariant 0 <= k <= |accepted|
        invariant ready == before + AtOrAbove((set i | i in accepted[..k]), visibleNext)
      {
        if indices[k] == 0 || indices[k] == U64_MAX {
          assert accepted[..k] == accepted;
          return Some(indices[k]);
        }
        assert accepted[..k + 1] == accepted[..k] + [indices[k]];
        if visibleNext <= indices[k] { ready := ready + {indices[k]}; }
        k := k + 1;
      }
      assert accepted[..k] == accepted;
      rejected := None;
    }

    /** Move the boundary to the first index that has not been reported. */
    method StepOverReady()
      requires WellFormed(View())
      modifies this`visibleNext, this`ready
      ensures WellFormed(View())
      ensures visibleNext == FirstMissing(old(visibleNext), old(ready))
      ensures ready == AtOrAbove(old(ready), visibleNext)
    {
      ghost var start, pending := visibleNext, ready;
      while visibleNext in ready
        invariant start <= visibleNext <= U64_MAX
        invariant ready == AtOrAbove(pending, visibleNext)
        invariant forall i :: start <= i < visibleNext ==> i in pending
        decreases ready
      {
        ready := ready - {visibleNext};
        visibleNext := visibleNext + 1;
      }
      FirstMissingUnique(start, pending, visibleNext);
    }

    /** Insert the reported indices, then step the boundary over the ready prefix. */
    method PublishReadyIndices(indices: seq<U64>) returns (r: PublishResult)
      requires Valid()
      modifies this
      ensures Valid()
      ensures (View(), r) == Publish(old(View()), indices)
      ensures old(observed) <= observed
      ensures visibleNext == old(visibleNext) ==> Cells() == old(Cells())
      ensures old(visibleNext) < visibleNext ==> sealed == None && sealedTableOid == 0
      ensures r.OutsideDomain? ==> Cells() == old(Cells())
    {
      var priorVisible := visibleNext - 1;
      var rejected := InsertReported(indices);
      if rejected.Some? { return OutsideDomain(rejected.value); }
      StepOverReady();
      var visible := visibleNext - 1;
      if priorVisible < visible {
        StoreTableOid(0);
        StoreSealed(None);
      }
      StoreCommittedSeq(visible);
      r := Published(visible);
    }

    /** Bind a recovered generation; refused unless it describes exactly the published prefix. */
    method InstallRecoveredSealedGeneration(generation: Generation) returns (ok: bool)
      requires Valid()
      modifies this`sealed, this`sealedTableOid, this`observed
      ensures Valid() && old(observed) <= observed
      ensures ok <==> generation.visibleThrough == visibleNext - 1
      ensures ok ==> Cells() == ReaderCells(committedSeq, Some(generation), generation.tableOid)
      ensures !ok ==> Cells() == old(Cells())
    {
      if visibleNext - 1 != generation.visibleThrough { return false; }
      StoreSealed(Some(generation));
      StoreTableOid(generation.tableOid);
      ok := true;
    }

    /** Quiescent authority replacement.  The boundary and the reader cell agree exactly when the
        installed index can be stepped past. */
    method InstallPublicationSnapshot(lastIncluded: U64)
      requires Valid()
      modifies this
      ensures View() == InstallSnapshot(lastIncluded)
      ensures Cells() == ReaderCells(lastIncluded, None, 0)
      ensures Valid() <==> lastIncluded < U64_MAX
    {
      visibleNext := if lastIncluded == U64_MAX then U64_MAX else lastIncluded + 1;
      ready := {};
      StoreTableOid(0);
      StoreSealed(None);
      StoreCommittedSeq(lastIncluded);
    }
  }

  /** With u64::MAX installed the saturated boundary admits a sealed generation one short of what
      readers already see: coherence of the next install holds exactly for smaller snapshots. */
  lemma SnapshotThenSealCoherentIff(lastIncluded: U64)
    ensures (forall g: Generation :: g.visibleThrough == InstallSnapshot(lastIncluded).visibleNext - 1 ==>
               Coherent(ReaderCells(lastIncluded, Some(g), g.tableOid)))
        <==> lastIncluded < U64_MAX
  {
    if lastIncluded == U64_MAX {
      var g := Generation(U64_MAX - 1, 7);
      assert !Coherent(ReaderCells(lastIncluded, Some(g), g.tableOid));
    }
  }
}
