/**
 The single-node replicated log (crates/replication/src/local.rs) and the write-ahead log buffer
 (crates/wal/src/buffer.rs), as far as the commit path drives them.
 */
module Replication {
  import opened Primitives

  type Payload = seq<char>

  datatype Role = Leader | Follower | Candidate

  datatype LogEntry = LogEntry(index: U64, payload: Payload)

  datatype LogView = LogView(
    role: Role, nextIndex: U64, commitIndex: U64, appliedIndex: U64, entries: seq<LogEntry>)

  /** The retained entries are the contiguous suffix of the log ending at the commit index; only
      applied entries may have been compacted away. */
  ghost predicate Contiguous(log: LogView)
  {
    && log.appliedIndex <= log.commitIndex
    && log.nextIndex == log.commitIndex + 1
    && log.commitIndex - log.appliedIndex <= |log.entries| <= log.commitIndex
    && forall k :: 0 <= k < |log.entries| ==>
         log.entries[k].index == log.commitIndex - |log.entries| + 1 + k
  }

  /** Entries for `payloads`, numbered from `first`. */
  function Numbered(payloads: seq<Payload>, first: nat): (entries: seq<LogEntry>)
    requires first + |payloads| <= U64_MAX
    ensures |entries| == |payloads|
    ensures forall k :: 0 <= k < |entries| ==> entries[k] == LogEntry(first + k, payloads[k])
  {
    seq(|payloads|, k requires 0 <= k < |payloads| => LogEntry(first + k, payloads[k]))
  }

  /** The log after proposing `payloads` one after another. */
  ghost function Proposed(log: LogView, payloads: seq<Payload>): (longer: LogView)
    requires log.nextIndex + |payloads| <= U64_MAX
    requires Contiguous(log)
    ensures Contiguous(longer)
  {
    log.(nextIndex := log.nextIndex + |payloads|,
         commitIndex := log.commitIndex + |payloads|,
         entries := log.entries + Numbered(payloads, log.nextIndex))
  }

  /** The log cut back to the indices below `bound`; an applied index is never withdrawn. */
  ghost function Withdrawn(log: LogView, bound: U64): LogView
    requires Contiguous(log)
  {
    if bound <= log.appliedIndex || log.commitIndex < bound then log
    else
      log.(nextIndex := bound, commitIndex := bound - 1,
           entries := log.entries[..|log.entries| - (log.commitIndex - (bound - 1))])
  }

  /** Withdrawing from the first proposed index undoes any number of proposals. */
  lemma WithdrawUndoesProposals(log: LogView, payloads: seq<Payload>)
    requires Contiguous(log)
    requires log.nextIndex + |payloads| <= U64_MAX
    ensures Withdrawn(Proposed(log, payloads), log.nextIndex) == log
  {
    var longer := Proposed(log, payloads);
    if payloads != [] {
      assert longer.entries[..|log.entries|] == log.entries;
    } else {
      assert longer.entries == log.entries;
    }
  }

  /** `retain(|e| e.index < bound)`. */
  function Below(entries: seq<LogEntry>, bound: U64): (kept: seq<LogEntry>)
  {
    if entries == [] then []
    else if entries[0].index < bound then [entries[0]] + Below(entries[1..], bound)
    else Below(entries[1..], bound)
  }

  lemma {:induction false} BelowSplits(low: seq<LogEntry>, high: seq<LogEntry>, bound: U64)
    requires forall k :: 0 <= k < |low| ==> low[k].index < bound
    requires forall k :: 0 <= k < |high| ==> bound <= high[k].index
    ensures Below(low + high, bound) == low
  {
    if low != [] {
      BelowSplits(low[1..], high, bound);
      assert (low + high)[1..] == low[1..] + high;
    } else if high != [] {
      BelowSplits(low, high[1..], bound);
      assert low + high == high && low + high[1..] == high[1..];
    }
  }

  lemma RetainBelowWithdraws(log: LogView, bound: U64)
    requires Contiguous(log) && log.appliedIndex < bound
    ensures Below(log.entries, bound) == Withdrawn(log, bound).entries
    ensures var kept := Withdrawn(log, bound);
      && Contiguous(kept)
      && kept.commitIndex == if kept.entries == [] then log.appliedIndex else kept.entries[|kept.entries| - 1].index
  {
    var kept := Withdrawn(log, bound).entries;
    var cut := log.entries[|kept|..];
    assert log.entries == kept + cut;
    BelowSplits(kept, cut, bound);
  }

  /** `retain(|e| e.index > bound)`. */
  function Above(entries: seq<LogEntry>, bound: U64): (kept: seq<LogEntry>)
  {
    if entries == [] then []
    else if bound < entries[0].index then [entries[0]] + Above(entries[1..], bound)
    else Above(entries[1..], bound)
  }

  lemma {:induction false} AboveSplits(low: seq<LogEntry>, high: seq<LogEntry>, bound: U64)
    requires forall k :: 0 <= k < |low| ==> low[k].index <= bound
    requires forall k :: 0 <= k < |high| ==> bound < high[k].index
    ensures Above(low + high, bound) == high
  {
    if low != [] {
      AboveSplits(low[1..], high, bound);
      assert (low + high)[1..] == low[1..] + high;
    } else if high != [] {
      AboveSplits(low, high[1..], bound);
      assert low + high == high && low + high[1..] == high[1..];
    } else {
      assert low + high == [];
    }
  }

  lemma RetainAboveCompacts(log: LogView)
    requires Contiguous(log)
    ensures Above(log.entries, log.appliedIndex) == log.entries[|log.entries| - (log.commitIndex - log.appliedIndex)..]
  {
    var cut := |log.entries| - (log.commitIndex - log.appliedIndex);
    assert log.entries == log.entries[..cut] + log.entries[cut..];
    AboveSplits(log.entries[..cut], log.entries[cut..], log.appliedIndex);
  }

  class LocalReplicator {
    var role: Role
    var nextIndex: U64
    var commitIndex: U64
    var appliedIndex: U64
    var entries: seq<LogEntry>

    ghost function View(): LogView
      reads this
    {
      LogView(role, nextIndex, commitIndex, appliedIndex, entries)
    }

    ghost predicate Valid()
      reads this
    {
      Contiguous(View())
    }

    constructor ()
      ensures Valid() && View() == LogView(Leader, 1, 0, 0, [])
    {
      role, nextIndex, commitIndex, appliedIndex, entries := Leader, 1, 0, 0, [];
    }

    method Become(newRole: Role)
      requires Valid()
      modifies this`role
      ensures Valid() && View() == old(View()).(role := newRole)
    {
      role := newRole;
    }

    /** Assign the next index; refused off-leader and when the sequence space is used up. */
    method Propose(payload: Payload) returns (index: Option<U64>)
      requires Valid()
      modifies this
      ensures Valid()
      ensures index.Some? <==> old(role) == Leader && old(nextIndex) < U64_MAX
      ensures index.Some? ==> index.value == old(nextIndex) && View() == Proposed(old(View()), [payload])
      ensures index.None? ==> View() == old(View())
    {
      if role != Leader || nextIndex == U64_MAX { return None; }
      var idx := nextIndex;
      nextIndex := nextIndex + 1;
      entries := entries + [LogEntry(idx, payload)];
      commitIndex := idx;
      index := Some(idx);
    }

    /** Withdraw every entry from `bound` on, unless that would reach into the applied prefix. */
    method RollbackUnappliedFrom(bound: U64)
      requires Valid()
      modifies this
      ensures Valid()
      ensures View() == Withdrawn(old(View()), bound)
    {
      if bound <= appliedIndex { return; }
      RetainBelowWithdraws(View(), bound);
      entries := Below(entries, bound);
      commitIndex := if entries == [] then appliedIndex else entries[|entries| - 1].index;
      nextIndex := SaturatingIncrement(commitIndex);
    }

    /** The retained committed entries above `start`, in order. */
    method DrainCommittedFrom(start: U64) returns (drained: seq<LogEntry>)
      requires Valid()
      ensures |drained| <= |entries| && drained == entries[|entries| - |drained|..]
      ensures forall k :: 0 <= k < |entries| ==>
        (start < entries[k].index <= commitIndex <==> |entries| - |drained| <= k)
      ensures appliedIndex <= start <= commitIndex ==> |drained| == commitIndex - start
    {
      if entries == [] || commitIndex < entries[0].index {
        drained := [];
      } else {
        var first := entries[0].index;
        var next := SaturatingIncrement(start);
        var lo := if next < first then first else next;
        var end := if commitIndex - first + 1 < |entries| then commitIndex - first + 1 else |entries|;
        var from := if lo - first < end then lo - first else end;
        assert end == |entries| && forall k :: 0 <= k < |entries| ==> entries[k].index == first + k <= commitIndex;
        drained := entries[from..end];
      }
    }

    method MarkApplied(index: U64)
      requires Valid()
      modifies this`appliedIndex
      ensures Valid()
      ensures appliedIndex == if index <= old(appliedIndex) then old(appliedIndex)
                              else if index <= commitIndex then index else commitIndex
    {
      var bounded := if index < commitIndex then index else commitIndex;
      if bounded <= appliedIndex { return; }
      appliedIndex := bounded;
    }

    /** Drop the applied prefix. */
    method CompactAppliedPrefix()
      requires Valid()
      modifies this`entries
      ensures Valid()
      ensures entries == old(entries)[|old(entries)| - (commitIndex - appliedIndex)..]
    {
      RetainAboveCompacts(View());
      entries := Above(entries, appliedIndex);
    }
  }

  // ---------------------------------------------------------------- write-ahead log

  type TxnId = nat
  type Digest = nat

  /** One canonical record: the durable transaction identity with its commit sequence. */
  datatype WalRecord = WalRecord(txn: TxnId, index: U64, payload: Payload, digest: Digest)

  /** Appended records and the durable watermark over them. */
  class WalBuffer {
    var records: seq<WalRecord>
    var flushed: nat

    ghost predicate Valid()
      reads this
    {
      flushed <= |records|
    }

    constructor ()
      ensures Valid() && records == [] && flushed == 0
    {
      records, flushed := [], 0;
    }

    method AppendCanonical(record: WalRecord)
      requires Valid()
      modifies this`records
      ensures Valid() && records == old(records) + [record]
    {
      records := records + [record];
    }

    /** One fsync makes the whole tail durable, or nothing moves. */
    method FlushAll(ioFails: bool) returns (ok: bool)
      requires Valid()
      modifies this`flushed
      ensures Valid() && ok == !ioFails
      ensures flushed == if ok then |records| else old(flushed)
    {
      if ioFails { return false; }
      flushed := |records|;
      ok := true;
    }

    /** A cut below the durable watermark rewinds the watermark with the records. */
    method Truncate(length: nat)
      requires Valid()
      modifies this
      ensures Valid()
      ensures records == if length < |old(records)| then old(records)[..length] else old(records)
      ensures flushed == if length < old(flushed) then length else old(flushed)
    {
      if |records| <= length { return; }
      if length < flushed { flushed := length; }
      records := records[..length];
    }
  }
}
