/**
 The dual-trigger batcher of crates/batching/src/lib.rs: a queue flushed when it holds enough items,
 when its oldest item has waited long enough, or on request; a failed batch goes back to the front.
 */
module Batcher {
  import opened Primitives

  type Instant = nat

  datatype Item<T> = Item(value: T, enqueuedAt: Instant)

  datatype Reason = Count | Time | Admin

  datatype Batch<T> = Batch(items: seq<Item<T>>, reason: Reason)

  datatype State<T> = State(maxItems: nat, maxWait: nat, queue: seq<Item<T>>, firstEnqueuedAt: Option<Instant>)

  /** The stored head time is the enqueue time of the queue's head, and absent exactly when it is empty. */
  ghost predicate Valid<T>(s: State<T>)
  {
    s.maxItems > 0
    && s.firstEnqueuedAt == if s.queue == [] then None else Some(s.queue[0].enqueuedAt)
  }

  function SaturatingSub(a: nat, b: nat): nat { if a < b then 0 else a - b }

  // ---------------------------------------------------------------- operations

  function Flushed<T>(s: State<T>, reason: Reason): (State<T>, Option<Batch<T>>)
  {
    if s.queue == [] then (s, None)
    else (s.(queue := [], firstEnqueuedAt := None), Some(Batch(s.queue, reason)))
  }

  function Enqueued<T>(s: State<T>, value: T, now: Instant): (State<T>, Option<Batch<T>>)
  {
    var grown := s.(queue := s.queue + [Item(value, now)],
                    firstEnqueuedAt := if s.firstEnqueuedAt.None? then Some(now) else s.firstEnqueuedAt);
    if |grown.queue| >= s.maxItems then Flushed(grown, Count) else (grown, None)
  }

  function TimeFlushed<T>(s: State<T>, now: Instant): (State<T>, Option<Batch<T>>)
  {
    if s.firstEnqueuedAt.Some? && SaturatingSub(now, s.firstEnqueuedAt.value) >= s.maxWait && s.queue != [] then
      Flushed(s, Time)
    else (s, None)
  }

  function Requeued<T>(s: State<T>, items: seq<Item<T>>): State<T>
  {
    if items == [] then s
    else s.(queue := items + s.queue, firstEnqueuedAt := Some(items[0].enqueuedAt))
  }

  function Remaining<T>(s: State<T>, now: Instant): Option<nat>
  {
    if s.firstEnqueuedAt.None? then None
    else Some(SaturatingSub(s.maxWait, SaturatingSub(now, s.firstEnqueuedAt.value)))
  }

  // ---------------------------------------------------------------- the batcher

  class DualTriggerBatcher<T> {
    const maxItems: nat
    const maxWait: nat
    var queue: seq<Item<T>>
    var firstEnqueuedAt: Option<Instant>

    ghost function View(): State<T>
      reads this
    {
      State(maxItems, maxWait, queue, firstEnqueuedAt)
    }

    constructor (maxItems: nat, maxWait: nat)
      requires maxItems > 0
      ensures View() == State(maxItems, maxWait, [], None) && Valid(View())
    {
      this.maxItems, this.maxWait := maxItems, maxWait;
      queue, firstEnqueuedAt := [], None;
    }

    method Enqueue(value: T, now: Instant) returns (batch: Option<Batch<T>>)
      requires Valid(View())
      modifies this
      ensures Valid(View()) && (View(), batch) == Enqueued(old(View()), value, now)
    {
      if firstEnqueuedAt.None? { firstEnqueuedAt := Some(now); }
      queue := queue + [Item(value, now)];
      if |queue| >= maxItems {
        batch := Flush(Count);
        return;
      }
      batch := None;
    }

    method MaybeFlushDueToTime(now: Instant) returns (batch: Option<Batch<T>>)
      requires Valid(View())
      modifies this
      ensures Valid(View()) && (View(), batch) == TimeFlushed(old(View()), now)
    {
      if firstEnqueuedAt.None? { return None; }
      if SaturatingSub(now, firstEnqueuedAt.value) >= maxWait && |queue| > 0 {
        batch := Flush(Time);
        return;
      }
      batch := None;
    }

    method FlushAdmin() returns (batch: Option<Batch<T>>)
      requires Valid(View())
      modifies this
      ensures Valid(View()) && (View(), batch) == Flushed(old(View()), Admin)
    {
      batch := Flush(Admin);
    }

    method RequeueFront(items: seq<Item<T>>)
      requires Valid(View())
      modifies this
      ensures Valid(View()) && View() == Requeued(old(View()), items)
    {
      if |items| == 0 { return; }
      var all := items + queue;
      firstEnqueuedAt := Some(all[0].enqueuedAt);
      queue := all;
    }

    method Flush(reason: Reason) returns (batch: Option<Batch<T>>)
      modifies this
      ensures (View(), batch) == Flushed(old(View()), reason)
    {
      if |queue| == 0 { return None; }
      var items := queue;
      queue := [];
      firstEnqueuedAt := None;
      batch := Some(Batch(items, reason));
    }
  }

  // ---------------------------------------------------------------- whole runs

  datatype Event<T> =
    | Enqueue(value: T, now: Instant)
    | Tick(now: Instant)
    | Request
    | Requeue(items: seq<Item<T>>)

  ghost function Step<T>(s: State<T>, e: Event<T>): (State<T>, Option<Batch<T>>)
  {
    match e
    case Enqueue(value, now) => Enqueued(s, value, now)
    case Tick(now) => TimeFlushed(s, now)
    case Request => Flushed(s, Admin)
    case Requeue(items) => (Requeued(s, items), None)
  }

  ghost function After<T>(s: State<T>, events: seq<Event<T>>): State<T>
  {
    if events == [] then s else Step(After(s, events[..|events| - 1]), events[|events| - 1]).0
  }

  function ItemsOf<T>(batch: Option<Batch<T>>): seq<Item<T>>
  {
    if batch.Some? then batch.value.items else []
  }

  /** Everything flushed so far, in flush order. */
  ghost function Output<T>(s: State<T>, events: seq<Event<T>>): seq<Item<T>>
  {
    if events == [] then []
    else
      var n := |events| - 1;
      Output(s, events[..n]) + ItemsOf(Step(After(s, events[..n]), events[n]).1)
  }

  /** The one stream a reader of flushes followed by the queue should see: enqueued items in order,
      with each requeued group inserted where the unflushed part begins. */
  ghost function Stream<T>(s: State<T>, events: seq<Event<T>>): seq<Item<T>>
  {
    if events == [] then s.queue
    else
      var n := |events| - 1;
      var before := Stream(s, events[..n]);
      match events[n]
      case Enqueue(value, now) => before + [Item(value, now)]
      case Requeue(items) =>
        var cut := |Output(s, events[..n])|;
        if cut <= |before| then before[..cut] + items + before[cut..] else before
      case _ => before
  }

  lemma {:induction false} RunsStayValid<T>(s: State<T>, events: seq<Event<T>>)
    requires Valid(s)
    ensures Valid(After(s, events)) && After(s, events).maxItems == s.maxItems && After(s, events).maxWait == s.maxWait
  {
    if events != [] { RunsStayValid(s, events[..|events| - 1]); }
  }

  lemma StepConserves<T>(s: State<T>, e: Event<T>)
    ensures var (t, batch) := Step(s, e);
      ItemsOf(batch) + t.queue ==
        match e
        case Enqueue(value, now) => s.queue + [Item(value, now)]
        case Requeue(items) => items + s.queue
        case _ => s.queue
  {
    var (t, batch) := Step(s, e);
    if batch.None? { assert [] + t.queue == t.queue; } else { assert batch.value.items + [] == batch.value.items; }
  }

  /** Nothing is lost, duplicated or reordered: flushed batches followed by the queue are the stream. */
  lemma {:induction false} FlushesThenQueueAreTheStream<T>(s: State<T>, events: seq<Event<T>>)
    ensures Output(s, events) + After(s, events).queue == Stream(s, events)
  {
    if events == [] {
      assert [] + s.queue == s.queue;
    } else {
      var n := |events| - 1;
      var prior := events[..n];
      FlushesThenQueueAreTheStream(s, prior);
      var state, output, stream := After(s, prior), Output(s, prior), Stream(s, prior);
      StepConserves(state, events[n]);
      var (t, batch) := Step(state, events[n]);
      assert Output(s, events) + t.queue == output + (ItemsOf(batch) + t.queue);
      match events[n]
      case Enqueue(value, now) => assert output + (state.queue + [Item(value, now)]) == stream + [Item(value, now)];
      case Requeue(items) =>
        assert stream[..|output|] == output && stream[|output|..] == state.queue;
        assert output + (items + state.queue) == output + items + state.queue;
      case _ =>
    }
  }

  ghost function EnqueuedIn<T>(events: seq<Event<T>>): seq<Item<T>>
  {
    if events == [] then []
    else
      var n := |events| - 1;
      EnqueuedIn(events[..n]) + if events[n].Enqueue? then [Item(events[n].value, events[n].now)] else []
  }

  ghost predicate NoRequeues<T>(events: seq<Event<T>>)
  {
    forall i :: 0 <= i < |events| ==> !events[i].Requeue?
  }

  /** Without requeues the stream is just what was enqueued, and the queue stays below the count limit. */
  lemma {:induction false} WithoutRequeues<T>(s: State<T>, events: seq<Event<T>>)
    requires Valid(s) && s.queue == [] && NoRequeues(events)
    ensures Stream(s, events) == EnqueuedIn(events)
    ensures |After(s, events).queue| < s.maxItems
  {
    if events != [] {
      var n := |events| - 1;
      WithoutRequeues(s, events[..n]);
      RunsStayValid(s, events[..n]);
      assert EnqueuedIn(events[..n]) + [] == EnqueuedIn(events[..n]);
    }
  }

  /** What makes a batch leave: enqueuing when the queue reaches the count limit, a tick when the head
      has waited long enough, a request when there is anything.  The reason names the trigger, and the
      batch is everything that was waiting. */
  lemma FlushesAreTriggered<T>(s: State<T>, e: Event<T>)
    requires Valid(s)
    ensures var (t, batch) := Step(s, e);
      && (batch.Some? <==>
            match e
            case Enqueue(_, _) => |s.queue| + 1 >= s.maxItems
            case Tick(now) => s.queue != [] && s.queue[0].enqueuedAt + s.maxWait <= Later(now, s.queue[0].enqueuedAt)
            case Request => s.queue != []
            case Requeue(_) => false)
      && (batch.Some? ==>
            && t.queue == [] && t.firstEnqueuedAt == None
            && batch.value == match e
                              case Enqueue(value, now) => Batch(s.queue + [Item(value, now)], Count)
                              case Tick(_) => Batch(s.queue, Time)
                              case _ => Batch(s.queue, Admin))
      && (batch.None? ==>
            t.queue == match e
                       case Enqueue(value, now) => s.queue + [Item(value, now)]
                       case Requeue(items) => items + s.queue
                       case _ => s.queue)
  {
  }

  function Later(a: Instant, b: Instant): Instant { if a < b then b else a }

  /** A time flush happens exactly when the reported remaining time is zero. */
  lemma TimeFlushIffNothingRemains<T>(s: State<T>, now: Instant)
    requires Valid(s)
    ensures TimeFlushed(s, now).1.Some? <==> Remaining(s, now) == Some(0)
  {
  }

  /** Putting a flushed batch back restores the batcher, head time included. */
  lemma RequeueUndoesFlush<T>(s: State<T>, reason: Reason)
    requires Valid(s)
    ensures var (t, batch) := Flushed(s, reason); Requeued(t, ItemsOf(batch)) == s
  {
    if s.queue != [] { assert s.queue + [] == s.queue; }
  }
}
