/** The refill alerts: a circular queue held in a fixed array of 20 records
    with `front`, `rear` and `count` indices. */
module Alerts {
  import opened Records

  const QueueSize: nat := 20

  /** `RefillQueue`: the 20 slots, the slot of the oldest alert, the slot of
      the newest one, and the number of alerts held. */
  datatype RefillQueue = RefillQueue(items: seq<Medication>, front: int, rear: int, count: int)

  /** The index invariant: `count` in [0, 20], `front` a slot, `rear` a slot
      or the initial -1, and `rear` just behind the `count` slots that start
      at `front`. */
  predicate Valid(q: RefillQueue) {
    && |q.items| == QueueSize
    && 0 <= q.count <= QueueSize
    && 0 <= q.front < QueueSize
    && -1 <= q.rear < QueueSize
    && (q.rear + 1) % QueueSize == (q.front + q.count) % QueueSize
  }

  /** The alerts waiting, oldest first: the `count` slots read from `front`,
      wrapping around the end of the array. */
  function Pending(q: RefillQueue): (r: seq<Medication>)
    requires Valid(q)
    ensures |r| == q.count
  {
    seq(q.count, i requires 0 <= i < q.count => q.items[(q.front + i) % QueueSize])
  }

  /** The queue `initializeSystem` leaves: `front == 0`, `rear == -1`,
      `count == 0`, and the global array zero-initialised. */
  function EmptyAlerts(): (q: RefillQueue)
    ensures Valid(q) && Pending(q) == []
  {
    RefillQueue(seq(QueueSize, _ => ZeroMedication), 0, -1, 0)
  }

  /** `isQueueEmpty`. */
  predicate IsQueueEmpty(q: RefillQueue)
    requires Valid(q)
    ensures IsQueueEmpty(q) <==> Pending(q) == []
  {
    q.count == 0
  }

  /** `isQueueFull`. */
  predicate IsQueueFull(q: RefillQueue)
    requires Valid(q)
    ensures IsQueueFull(q) <==> |Pending(q)| == QueueSize
  {
    q.count == QueueSize
  }

  /** Reducing an index below twice the capacity modulo the capacity. */
  lemma Wrap(x: int)
    requires 0 <= x < 2 * QueueSize
    ensures x % QueueSize == if x < QueueSize then x else x - QueueSize
  {
  }

  /** `enqueueMedication`: on a full queue nothing changes and `Full` is
      reported; otherwise `rear` advances with wrap-around, `med` is stored
      there and `count` grows, which appends `med` to the pending alerts. */
  function EnqueueMedication(q: RefillQueue, med: Medication): (r: (RefillQueue, Status))
    requires Valid(q)
    ensures Valid(r.0)
    ensures |Pending(q)| == QueueSize ==> r == (q, Full)
    ensures |Pending(q)| < QueueSize ==> r.1 == Done && Pending(r.0) == Pending(q) + [med]
  {
    if IsQueueFull(q) then (q, Full)
    else
      var rear := (q.rear + 1) % QueueSize;
      var r := RefillQueue(q.items[rear := med], q.front, rear, q.count + 1);
      EnqueueAppends(q, med, r);
      (r, Done)
  }

  lemma EnqueueAppends(q: RefillQueue, med: Medication, r: RefillQueue)
    requires Valid(q) && q.count < QueueSize
    requires r == RefillQueue(q.items[(q.rear + 1) % QueueSize := med], q.front, (q.rear + 1) % QueueSize, q.count + 1)
    ensures Valid(r) && Pending(r) == Pending(q) + [med]
  {
    Wrap(q.rear + 1);
    Wrap(q.front + q.count);
    Wrap(r.rear + 1);
    Wrap(q.front + q.count + 1);
    assert r.rear == (q.front + q.count) % QueueSize;
    forall i | 0 <= i < q.count
      ensures Pending(r)[i] == Pending(q)[i]
    {
      Wrap(q.front + i);
    }
  }

  /** `dequeueMedication`: on an empty queue nothing changes and the zero
      record is returned with `Empty`; otherwise the record at `front` is
      returned, `front` advances with wrap-around and `count` shrinks, which
      removes the oldest pending alert. */
  function DequeueMedication(q: RefillQueue): (r: (RefillQueue, Medication, Status))
    requires Valid(q)
    ensures Valid(r.0)
    ensures Pending(q) == [] ==> r == (q, ZeroMedication, Empty)
    ensures Pending(q) != [] ==> r.2 == Done && Pending(q) == [r.1] + Pending(r.0)
  {
    if IsQueueEmpty(q) then (q, ZeroMedication, Empty)
    else
      var med := q.items[q.front];
      var r := RefillQueue(q.items, (q.front + 1) % QueueSize, q.rear, q.count - 1);
      DequeueRemovesOldest(q, r);
      (r, med, Done)
  }

  lemma DequeueRemovesOldest(q: RefillQueue, r: RefillQueue)
    requires Valid(q) && q.count > 0
    requires r == RefillQueue(q.items, (q.front + 1) % QueueSize, q.rear, q.count - 1)
    ensures Valid(r) && Pending(q) == [q.items[q.front]] + Pending(r)
  {
    Wrap(q.front + 1);
    Wrap(q.front + q.count);
    Wrap(r.front + r.count);
    forall i | 0 <= i < r.count
      ensures Pending(r)[i] == Pending(q)[i + 1]
    {
      Wrap(r.front + i);
      Wrap(q.front + i + 1);
    }
    Wrap(q.front);
  }

  /** An enqueue onto an empty queue, followed by a dequeue, hands back the
      enqueued record and leaves the queue empty again. */
  lemma EnqueueThenDequeue(q: RefillQueue, med: Medication)
    requires Valid(q) && q.count == 0
    ensures var (after, served, status) := DequeueMedication(EnqueueMedication(q, med).0);
      served == med && status == Done && after.count == q.count && Pending(after) == []
  {
    var queued := EnqueueMedication(q, med).0;
    assert Pending(queued) == [med];
  }

  /** One call on the queue. */
  datatype QueueOp = Enq(med: Medication) | Deq

  /** Runs `ops` in order and collects what the dequeues returned and which
      enqueued records were accepted. */
  function RunQueue(q: RefillQueue, ops: seq<QueueOp>): (r: (RefillQueue, seq<Medication>, seq<Medication>))
    requires Valid(q)
    ensures Valid(r.0)
    decreases |ops|
  {
    if |ops| == 0 then (q, [], [])
    else
      var step := FirstStep(q, ops[0]);
      var rest := RunQueue(step.0, ops[1..]);
      (rest.0, step.1 + rest.1, step.2 + rest.2)
  }

  /** First in, first out, across any interleaving of calls: the records the
      dequeues return, followed by what is still pending, are exactly what
      was pending before, followed by the accepted enqueues, in order. */
  lemma {:induction false} QueueIsFifo(q: RefillQueue, ops: seq<QueueOp>)
    requires Valid(q)
    ensures var r := RunQueue(q, ops);
      r.1 + Pending(r.0) == Pending(q) + r.2
    decreases |ops|
  {
    if |ops| > 0 {
      var step := FirstStep(q, ops[0]);
      var rest := RunQueue(step.0, ops[1..]);
      QueueIsFifo(step.0, ops[1..]);
      assert RunQueue(q, ops) == (rest.0, step.1 + rest.1, step.2 + rest.2);
      ChainRuns(step.1, rest.1, Pending(rest.0), Pending(step.0), Pending(q), step.2, rest.2);
    }
  }

  /** Sequence bookkeeping for two runs in a row: what was handed out and
      what is left balances what was there and what was accepted. */
  lemma ChainRuns(handed: seq<Medication>, served: seq<Medication>, left: seq<Medication>,
                  middle: seq<Medication>, start: seq<Medication>,
                  admitted: seq<Medication>, accepted: seq<Medication>)
    requires handed + middle == start + admitted
    requires served + left == middle + accepted
    ensures handed + served + left == start + admitted + accepted
  {
    calc {
      handed + served + left;
      handed + (served + left);
      handed + (middle + accepted);
      (handed + middle) + accepted;
    }
  }

  /** The queue after one call, with the record it handed out and the record
      it accepted, if any. */
  function FirstStep(q: RefillQueue, op: QueueOp): (r: (RefillQueue, seq<Medication>, seq<Medication>))
    requires Valid(q)
    ensures Valid(r.0)
    ensures r.1 + Pending(r.0) == Pending(q) + r.2
  {
    match op
    case Enq(med) =>
      var (q', status) := EnqueueMedication(q, med);
      (q', [], if status == Done then [med] else [])
    case Deq =>
      var (q', med, status) := DequeueMedication(q);
      (q', if status == Done then [med] else [], [])
  }

  /** The walk of `displayRefillAlerts`: `count` slots from `front`, the index
      wrapping modulo 20, which lists the pending alerts oldest first. */
  method AlertsInOrder(q: RefillQueue) returns (view: seq<Medication>)
    requires Valid(q)
    ensures view == Pending(q)
  {
    view := [];
    var index := q.front;
    var i := 0;
    while i < q.count
      invariant 0 <= i <= q.count
      invariant index == (q.front + i) % QueueSize
      invariant view == Pending(q)[..i]
    {
      view := view + [q.items[index]];
      Wrap(index + 1);
      Wrap(q.front + i);
      Wrap(q.front + i + 1);
      index := (index + 1) % QueueSize;
      i := i + 1;
    }
  }
}
