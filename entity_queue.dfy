/** The write coalescer: entities submitted one at a time are buffered in one
    FIFO queue per entity type and flushed by a periodic tick in chunks of at
    most 1000 through an opaque batch sink; every submitter gets its own
    completion task.

    Each TaskCompletionSource is a ticket into `tasks`, the map of completion
    states; the timer tick is the explicit step `Loop`, and the batch sink
    (`Process` followed by `SaveChanges`) is a function parameter. */
module EntityQueueing {
  import opened Wrappers

  /** The name of a CLR entity type, `typeof(T)`. */
  type TypeName = string

  /** Identifies the TaskCompletionSource created for one submission. */
  type Ticket = nat

  /** The state of a `TaskCompletionSource<bool>`. */
  datatype TaskState = Pending | RanToCompletion(result: bool) | Faulted(error: Exception)

  /** A queued submission: the entity and the task its submitter awaits. */
  datatype Record<E> = Record(entity: E, ticket: Ticket)

  /** What one call of the batch sink does: `Process` (unguarded) adds the
      entities to the context, then `SaveChanges` (guarded) commits. */
  datatype SinkOutcome = Saved | SaveFailed(error: Exception) | ProcessFailed(error: Exception)

  /** One call of the batch sink, as the engine made it. */
  datatype Batch<E> = Batch(typeName: TypeName, entities: seq<E>, outcome: SinkOutcome)

  /** The most records handed to the sink in one call. */
  const ChunkSize: nat := 1000

  const DisposedOnInsert: string := "Unable to access disposed EntityQueue"
  const DisposedInQueue: string := "Queue was disposed"

  /** The entity of each record, in the records' order. */
  function Entities<E>(rs: seq<Record<E>>): (es: seq<E>)
    ensures |es| == |rs|
  {
    seq(|rs|, i requires 0 <= i < |rs| => rs[i].entity)
  }

  function Tickets<E>(rs: seq<Record<E>>): set<Ticket> {
    set i | 0 <= i < |rs| :: rs[i].ticket
  }

  function TicketAt<E>(rs: seq<Record<E>>, i: nat): Ticket
    requires i < |rs|
  {
    rs[i].ticket
  }

  ghost predicate DistinctTickets<E>(rs: seq<Record<E>>) {
    forall i, j | 0 <= i < j < |rs| :: TicketAt(rs, i) != TicketAt(rs, j)
  }

  /** The state a record's task gets from the outcome of its chunk. */
  function Resolution(outcome: SinkOutcome): TaskState {
    match outcome
    case Saved => RanToCompletion(true)
    case SaveFailed(e) => Faulted(e)
    case ProcessFailed(_) => Pending
  }

  /** Sets the task of every record of `rs` to `s`, in order. */
  function Resolve<E>(tasks: map<Ticket, TaskState>, rs: seq<Record<E>>, s: TaskState): map<Ticket, TaskState>
    decreases |rs|
  {
    if rs == [] then tasks else Resolve(tasks[rs[0].ticket := s], rs[1..], s)
  }

  /** Resolving sets exactly the tasks of the given records and no other. */
  lemma {:induction false} ResolveAt<E>(tasks: map<Ticket, TaskState>, rs: seq<Record<E>>, s: TaskState)
    ensures Resolve(tasks, rs, s).Keys == tasks.Keys + Tickets(rs)
    ensures forall x :: x in Tickets(rs) ==> Resolve(tasks, rs, s)[x] == s
    ensures forall x :: x in tasks && x !in Tickets(rs) ==> Resolve(tasks, rs, s)[x] == tasks[x]
    decreases |rs|
  {
    if rs != [] {
      ResolveAt(tasks[rs[0].ticket := s], rs[1..], s);
      assert Tickets(rs) == {rs[0].ticket} + Tickets(rs[1..]) by {
        forall x | x in Tickets(rs) ensures x in {rs[0].ticket} + Tickets(rs[1..]) {
          var i :| 0 <= i < |rs| && rs[i].ticket == x;
          if i > 0 { assert rs[1..][i - 1] == rs[i]; }
        }
        forall x | x in Tickets(rs[1..]) ensures x in Tickets(rs) {
          var i :| 0 <= i < |rs[1..]| && rs[1..][i].ticket == x;
          assert rs[i + 1] == rs[1..][i];
        }
      }
    }
  }

  /** The tickets of two consecutive parts of a snapshot are those of the whole. */
  lemma TicketsAppend<E>(a: seq<Record<E>>, b: seq<Record<E>>)
    ensures Tickets(a + b) == Tickets(a) + Tickets(b)
  {
    forall x | x in Tickets(a + b) ensures x in Tickets(a) + Tickets(b) {
      var i :| 0 <= i < |a + b| && (a + b)[i].ticket == x;
      if i >= |a| { assert b[i - |a|] == (a + b)[i]; }
    }
    forall x | x in Tickets(a) ensures x in Tickets(a + b) {
      var i :| 0 <= i < |a| && a[i].ticket == x;
      assert (a + b)[i] == a[i];
    }
    forall x | x in Tickets(b) ensures x in Tickets(a + b) {
      var i :| 0 <= i < |b| && b[i].ticket == x;
      assert (a + b)[|a| + i] == b[i];
    }
  }

  lemma TicketsSplit<E>(records: seq<Record<E>>, lo: nat, mid: nat)
    requires lo <= mid <= |records|
    ensures Tickets(records[lo..]) == Tickets(records[lo..mid]) + Tickets(records[mid..])
  {
    assert records[lo..] == records[lo..mid] + records[mid..];
    TicketsAppend(records[lo..mid], records[mid..]);
  }

  lemma EntitiesAppend<E>(a: seq<Record<E>>, b: seq<Record<E>>)
    ensures Entities(a + b) == Entities(a) + Entities(b)
  {
    assert forall i | 0 <= i < |a + b| :: Entities(a + b)[i] == (Entities(a) + Entities(b))[i];
  }

  /** A record of a snapshot does not share its task with the records of
      another part of the snapshot. */
  lemma TicketOutsideSlice<E>(records: seq<Record<E>>, lo: nat, hi: nat, j: nat)
    requires DistinctTickets(records)
    requires lo <= hi <= |records| && j < |records| && !(lo <= j < hi)
    ensures records[j].ticket !in Tickets(records[lo..hi])
  {
    forall l | 0 <= l < hi - lo ensures records[lo..hi][l].ticket != records[j].ticket {
      assert records[lo..hi][l] == records[lo + l];
      assert TicketAt(records, lo + l) == records[lo + l].ticket;
      assert TicketAt(records, j) == records[j].ticket;
    }
  }

  /** The end of the chunk that starts at `offset`: at most 1000 records further, and no
      further than the end of the snapshot. */
  function ChunkEnd(offset: nat, n: nat): nat {
    Min(offset + ChunkSize, n)
  }

  /** What is left of one tick for one type: the resulting task states, the
      sink calls made, and the exception that escaped, if any. */
  datatype Drain<E> = Drain(tasks: map<Ticket, TaskState>, batches: seq<Batch<E>>, crash: Option<Exception>)

  /** Processing the dequeued snapshot `records` from `offset` on: one sink
      call per chunk; a failed `SaveChanges` faults the chunk and the loop goes
      on with the next chunk; a failed `Process` escapes and ends the tick. */
  function ProcessFrom<E>(t: TypeName, records: seq<Record<E>>, offset: nat, tasks: map<Ticket, TaskState>,
                          sink: (TypeName, seq<E>) -> SinkOutcome): Drain<E>
    decreases |records| - offset
  {
    if offset >= |records| then Drain(tasks, [], None)
    else
      var avail := records[offset..ChunkEnd(offset, |records|)];
      var outcome := sink(t, Entities(avail));
      var b := Batch(t, Entities(avail), outcome);
      if outcome.ProcessFailed? then Drain(tasks, [b], Some(outcome.error))
      else
        var rest := ProcessFrom(t, records, offset + |avail|, Resolve(tasks, avail, Resolution(outcome)), sink);
        Drain(rest.tasks, [b] + rest.batches, rest.crash)
  }

  /** The entities of the given sink calls, in the order the calls were made. */
  function Flat<E>(bs: seq<Batch<E>>): seq<E> {
    if bs == [] then [] else bs[0].entities + Flat(bs[1..])
  }

  /** The state the given sink calls give the records they carried, one per record. */
  function Settled<E>(bs: seq<Batch<E>>): (ss: seq<TaskState>)
    ensures |ss| == |Flat(bs)|
  {
    if bs == [] then [] else seq(|bs[0].entities|, _ => Resolution(bs[0].outcome)) + Settled(bs[1..])
  }

  /** The sink calls of one type: each carries between 1 and 1000 entities of
      that type and is answered by the sink; all but the last carry exactly
      1000 and returned normally; when `Process` failed, the escaped
      exception is the one the last call raised, and otherwise no call
      raised one. */
  lemma {:induction false} ProcessFromBatches<E>(t: TypeName, records: seq<Record<E>>, offset: nat,
                                                 tasks: map<Ticket, TaskState>, sink: (TypeName, seq<E>) -> SinkOutcome)
    requires offset <= |records|
    ensures var d := ProcessFrom(t, records, offset, tasks, sink);
      && (forall k | 0 <= k < |d.batches| ::
            && d.batches[k].typeName == t
            && 0 < |d.batches[k].entities| <= ChunkSize
            && d.batches[k].outcome == sink(t, d.batches[k].entities))
      && (forall k | 0 <= k < |d.batches| - 1 ::
            |d.batches[k].entities| == ChunkSize && !d.batches[k].outcome.ProcessFailed?)
      && (d.crash.None? ==> forall k | 0 <= k < |d.batches| :: !d.batches[k].outcome.ProcessFailed?)
      && (d.crash.Some? ==> d.batches != [] && d.batches[|d.batches| - 1].outcome == ProcessFailed(d.crash.value))
    decreases |records| - offset
  {
    var d := ProcessFrom(t, records, offset, tasks, sink);
    if offset < |records| {
      var e := ChunkEnd(offset, |records|);
      var avail := records[offset..e];
      var outcome := sink(t, Entities(avail));
      var b := Batch(t, Entities(avail), outcome);
      if outcome.ProcessFailed? {
        assert d.batches == [b];
      } else {
        var next := Resolve(tasks, avail, Resolution(outcome));
        ProcessFromBatches(t, records, e, next, sink);
        var rest := ProcessFrom(t, records, e, next, sink);
        assert d.batches == [b] + rest.batches;
        if rest.batches != [] {
          assert e == offset + ChunkSize;
        }
        forall k | 1 <= k < |d.batches| ensures d.batches[k] == rest.batches[k - 1] { }
      }
    }
  }

  /** Together the sink calls of one type carry the snapshot from `offset`
      on in arrival order: all of it unless `Process` failed, and a prefix of
      it otherwise. */
  lemma {:induction false} ProcessFromFlat<E>(t: TypeName, records: seq<Record<E>>, offset: nat,
                                              tasks: map<Ticket, TaskState>, sink: (TypeName, seq<E>) -> SinkOutcome)
    requires offset <= |records|
    ensures var d := ProcessFrom(t, records, offset, tasks, sink);
      && (d.crash.None? ==> Flat(d.batches) == Entities(records[offset..]))
      && (d.crash.Some? ==> Flat(d.batches) <= Entities(records[offset..]))
    decreases |records| - offset
  {
    var d := ProcessFrom(t, records, offset, tasks, sink);
    if offset < |records| {
      var e := ChunkEnd(offset, |records|);
      var avail := records[offset..e];
      var outcome := sink(t, Entities(avail));
      var b := Batch(t, Entities(avail), outcome);
      assert Entities(records[offset..]) == Entities(avail) + Entities(records[e..]) by {
        assert records[offset..] == avail + records[e..];
        EntitiesAppend(avail, records[e..]);
      }
      if outcome.ProcessFailed? {
        assert d.batches == [b];
        assert Flat(d.batches) == Entities(avail) by { assert [b][1..] == []; }
      } else {
        var next := Resolve(tasks, avail, Resolution(outcome));
        ProcessFromFlat(t, records, e, next, sink);
        var rest := ProcessFrom(t, records, e, next, sink);
        assert d.batches == [b] + rest.batches;
        assert Flat(d.batches) == Entities(avail) + Flat(rest.batches) by {
          assert ([b] + rest.batches)[1..] == rest.batches;
        }
        if rest.crash.Some? {
          var w := Entities(records[e..]);
          assert Flat(rest.batches) == w[..|Flat(rest.batches)|];
          assert Flat(d.batches) == (Entities(avail) + w)[..|Flat(d.batches)|];
        }
      }
    } else {
      assert records[offset..] == [];
    }
  }

  /** A task of no record of the snapshot from `offset` on is left as it was. */
  lemma {:induction false} ProcessFromKeeps<E>(t: TypeName, records: seq<Record<E>>, offset: nat,
                                               tasks: map<Ticket, TaskState>, sink: (TypeName, seq<E>) -> SinkOutcome,
                                               x: Ticket)
    requires offset <= |records|
    requires x in tasks && x !in Tickets(records[offset..])
    ensures var d := ProcessFrom(t, records, offset, tasks, sink);
      x in d.tasks && d.tasks[x] == tasks[x]
    decreases |records| - offset
  {
    if offset < |records| {
      var e := ChunkEnd(offset, |records|);
      var avail := records[offset..e];
      var outcome := sink(t, Entities(avail));
      if !outcome.ProcessFailed? {
        TicketsSplit(records, offset, e);
        ResolveAt(tasks, avail, Resolution(outcome));
        ProcessFromKeeps(t, records, e, Resolve(tasks, avail, Resolution(outcome)), sink, x);
      }
    }
  }

  /** Processing a snapshot whose tasks were all handed out keeps the set of tasks. */
  lemma {:induction false} ProcessFromKeys<E>(t: TypeName, records: seq<Record<E>>, offset: nat,
                                              tasks: map<Ticket, TaskState>, sink: (TypeName, seq<E>) -> SinkOutcome)
    requires forall j | offset <= j < |records| :: records[j].ticket in tasks
    ensures ProcessFrom(t, records, offset, tasks, sink).tasks.Keys == tasks.Keys
    decreases |records| - offset
  {
    if offset < |records| {
      var e := ChunkEnd(offset, |records|);
      var avail := records[offset..e];
      var outcome := sink(t, Entities(avail));
      if !outcome.ProcessFailed? {
        ResolveAt(tasks, avail, Resolution(outcome));
        assert Tickets(avail) <= tasks.Keys by {
          assert forall i | 0 <= i < |avail| :: avail[i] == records[offset + i];
        }
        ProcessFromKeys(t, records, e, Resolve(tasks, avail, Resolution(outcome)), sink);
      }
    }
  }

  /** The task of the `j`-th snapshot record ends in the state the sink call
      that carried it gives (`SetResult(true)` after a save, the save's
      exception after a failed save); a record no call carried, or one whose
      `Process` failed, stays pending. */
  lemma {:induction false} ProcessFromTaskAt<E>(t: TypeName, records: seq<Record<E>>, offset: nat,
                                                tasks: map<Ticket, TaskState>, sink: (TypeName, seq<E>) -> SinkOutcome,
                                                j: nat)
    requires offset <= j < |records|
    requires DistinctTickets(records)
    requires records[j].ticket in tasks && tasks[records[j].ticket] == Pending
    ensures var d := ProcessFrom(t, records, offset, tasks, sink);
      && records[j].ticket in d.tasks
      && d.tasks[records[j].ticket] == if j - offset < |Settled(d.batches)| then Settled(d.batches)[j - offset] else Pending
    decreases |records| - offset
  {
    var e := ChunkEnd(offset, |records|);
    var avail := records[offset..e];
    var outcome := sink(t, Entities(avail));
    var b := Batch(t, Entities(avail), outcome);
    var d := ProcessFrom(t, records, offset, tasks, sink);
    var x := records[j].ticket;
    if outcome.ProcessFailed? {
      assert d.batches == [b];
      assert Settled(d.batches) == seq(|avail|, _ => Pending) by { assert [b][1..] == []; }
    } else {
      var next := Resolve(tasks, avail, Resolution(outcome));
      ResolveAt(tasks, avail, Resolution(outcome));
      var rest := ProcessFrom(t, records, e, next, sink);
      assert d.batches == [b] + rest.batches;
      assert Settled(d.batches) == seq(|avail|, _ => Resolution(outcome)) + Settled(rest.batches) by {
        assert ([b] + rest.batches)[1..] == rest.batches;
      }
      if j < e {
        assert avail[j - offset] == records[j];
        TicketOutsideSlice(records, e, |records|, j);
        assert records[e..|records|] == records[e..];
        ProcessFromKeeps(t, records, e, next, sink, x);
      } else {
        TicketOutsideSlice(records, offset, e, j);
        ProcessFromTaskAt(t, records, e, next, sink, j);
      }
    }
  }

  /** Sink calls that all returned normally settle every record they carried. */
  lemma {:induction false} SettledNotPending<E>(bs: seq<Batch<E>>)
    requires forall k | 0 <= k < |bs| :: !bs[k].outcome.ProcessFailed?
    ensures forall i | 0 <= i < |Settled(bs)| :: Settled(bs)[i] != Pending
  {
    if bs != [] {
      SettledNotPending(bs[1..]);
      var head := seq(|bs[0].entities|, _ => Resolution(bs[0].outcome));
      assert Settled(bs) == head + Settled(bs[1..]);
      forall i | 0 <= i < |Settled(bs)| ensures Settled(bs)[i] != Pending {
        if i >= |head| {
          assert Settled(bs)[i] == Settled(bs[1..])[i - |head|];
        }
      }
    }
  }

  /** A snapshot processed without an escaped exception leaves none of its tasks pending. */
  lemma ProcessSettlesAt<E>(t: TypeName, records: seq<Record<E>>, tasks: map<Ticket, TaskState>,
                            sink: (TypeName, seq<E>) -> SinkOutcome, j: nat)
    requires j < |records| && DistinctTickets(records)
    requires records[j].ticket in tasks && tasks[records[j].ticket] == Pending
    requires ProcessFrom(t, records, 0, tasks, sink).crash.None?
    ensures var d := ProcessFrom(t, records, 0, tasks, sink);
      records[j].ticket in d.tasks && d.tasks[records[j].ticket] != Pending
  {
    var d := ProcessFrom(t, records, 0, tasks, sink);
    ProcessFromBatches(t, records, 0, tasks, sink);
    ProcessFromFlat(t, records, 0, tasks, sink);
    ProcessFromTaskAt(t, records, 0, tasks, sink, j);
    SettledNotPending(d.batches);
    assert records[0..] == records;
  }

  /** The queue of type `t`, or an empty one when `t` was never used. */
  function QueueOf<E>(queues: map<TypeName, seq<Record<E>>>, t: TypeName): seq<Record<E>> {
    if t in queues then queues[t] else []
  }

  /** Every queued record holds a pending task. */
  ghost predicate PendingQueued<E>(queues: map<TypeName, seq<Record<E>>>, tasks: map<Ticket, TaskState>) {
    forall t, j | t in queues && 0 <= j < |queues[t]| ::
      queues[t][j].ticket in tasks && tasks[queues[t][j].ticket] == Pending
  }

  /** No two queued records share a task. */
  ghost predicate UniqueTickets<E>(queues: map<TypeName, seq<Record<E>>>) {
    forall t, j, u, l | t in queues && u in queues && 0 <= j < |queues[t]| && 0 <= l < |queues[u]| &&
                        TicketAt(queues[t], j) == TicketAt(queues[u], l) :: t == u && j == l
  }

  /** The snapshot of one queue holds distinct tasks, none held by a record
      left in the queues once that queue is emptied. */
  lemma SnapshotSeparate<E>(queues: map<TypeName, seq<Record<E>>>, t: TypeName)
    requires UniqueTickets(queues)
    ensures DistinctTickets(QueueOf(queues, t))
    ensures forall j | 0 <= j < |QueueOf(queues, t)| :: NotQueued(queues[t := []], QueueOf(queues, t)[j].ticket)
  {
    var q: map<TypeName, seq<Record<E>>> := queues[t := []];
    forall j | 0 <= j < |QueueOf(queues, t)| ensures NotQueued(q, QueueOf(queues, t)[j].ticket) {
      forall u, l | u in q && 0 <= l < |q[u]| ensures q[u][l].ticket != queues[t][j].ticket {
        assert TicketAt(queues[u], l) == q[u][l].ticket;
        assert TicketAt(queues[t], j) == queues[t][j].ticket;
      }
    }
  }

  /** What one whole tick leaves: the queues, the task states, the sink calls
      in order, the exception that escaped, and how many types it finished. */
  datatype Tick<E> = Tick(queues: map<TypeName, seq<Record<E>>>, tasks: map<Ticket, TaskState>,
                          batches: seq<Batch<E>>, crash: Option<Exception>, typesDone: nat)

  /** The tick from the `i`-th registered type on: each type's queue is
      drained into a snapshot and processed; an escaped exception ends it. */
  function DrainFrom<E>(types: seq<TypeName>, i: nat, queues: map<TypeName, seq<Record<E>>>,
                        tasks: map<Ticket, TaskState>, sink: (TypeName, seq<E>) -> SinkOutcome): Tick<E>
    decreases |types| - i
  {
    if i >= |types| then Tick(queues, tasks, [], None, 0)
    else
      var t := types[i];
      var d := ProcessFrom(t, QueueOf(queues, t), 0, tasks, sink);
      if d.crash.Some? then Tick(queues[t := []], d.tasks, d.batches, d.crash, 0)
      else
        var rest := DrainFrom(types, i + 1, queues[t := []], d.tasks, sink);
        Tick(rest.queues, rest.tasks, d.batches + rest.batches, rest.crash, rest.typesDone + 1)
  }

  /** One step of a tick: the queue of the `i`-th type is emptied and its
      snapshot processed; an escaped exception ends the tick there. */
  lemma DrainUnfold<E>(types: seq<TypeName>, i: nat, queues: map<TypeName, seq<Record<E>>>,
                       tasks: map<Ticket, TaskState>, sink: (TypeName, seq<E>) -> SinkOutcome)
    requires i < |types|
    ensures var t := types[i];
      var d := ProcessFrom(t, QueueOf(queues, t), 0, tasks, sink);
      var r := DrainFrom(types, i, queues, tasks, sink);
      if d.crash.Some? then r == Tick(queues[t := []], d.tasks, d.batches, d.crash, 0)
      else
        var rest := DrainFrom(types, i + 1, queues[t := []], d.tasks, sink);
        r == Tick(rest.queues, rest.tasks, d.batches + rest.batches, rest.crash, rest.typesDone + 1)
  {
  }

  /** The tick `total` is what `batches` already sent, followed by the tick
      from the `i`-th type on. */
  ghost predicate TickSoFar<E>(types: seq<TypeName>, i: nat, queues: map<TypeName, seq<Record<E>>>,
                               tasks: map<Ticket, TaskState>, sink: (TypeName, seq<E>) -> SinkOutcome,
                               total: Tick<E>, batches: seq<Batch<E>>) {
    var r := DrainFrom(types, i, queues, tasks, sink);
    && total.queues == r.queues && total.tasks == r.tasks && total.crash == r.crash
    && total.batches == batches + r.batches && total.typesDone == i + r.typesDone
  }

  /** The `i`-th step of a tick, once `batches` were sent before it and the
      whole tick is `total`: it sends the batches of that type's snapshot, and
      either ends the tick with an escaped exception or leaves the rest of the
      tick to the next type. */
  lemma DrainStep<E>(types: seq<TypeName>, i: nat, queues: map<TypeName, seq<Record<E>>>,
                     tasks: map<Ticket, TaskState>, sink: (TypeName, seq<E>) -> SinkOutcome,
                     total: Tick<E>, batches: seq<Batch<E>>,
                     queues': map<TypeName, seq<Record<E>>>, tasks': map<Ticket, TaskState>,
                     sent: seq<Batch<E>>, failure: Option<Exception>)
    requires i < |types| && TickSoFar(types, i, queues, tasks, sink, total, batches)
    requires var d := ProcessFrom(types[i], QueueOf(queues, types[i]), 0, tasks, sink);
      queues' == queues[types[i] := []] && tasks' == d.tasks && sent == d.batches && failure == d.crash
    ensures failure.Some? ==> total == Tick(queues', tasks', batches + sent, failure, i)
    ensures failure.None? ==> TickSoFar(types, i + 1, queues', tasks', sink, total, batches + sent)
  {
    if failure.None? {
      var r := DrainFrom(types, i + 1, queues', tasks', sink);
      assert batches + (sent + r.batches) == (batches + sent) + r.batches;
    }
  }

  /** Processing one type's snapshot leaves the records of the other types
      queued with pending, distinct tasks. */
  lemma ProcessKeepsOthers<E>(queues: map<TypeName, seq<Record<E>>>, tasks: map<Ticket, TaskState>,
                              sink: (TypeName, seq<E>) -> SinkOutcome, t: TypeName)
    requires PendingQueued(queues, tasks) && UniqueTickets(queues)
    ensures var d := ProcessFrom(t, QueueOf(queues, t), 0, tasks, sink);
      PendingQueued(queues[t := []], d.tasks) && UniqueTickets(queues[t := []])
  {
    var records := QueueOf(queues, t);
    var q: map<TypeName, seq<Record<E>>> := queues[t := []];
    assert records[0..] == records;
    forall u, j | u in q && 0 <= j < |q[u]|
      ensures var d := ProcessFrom(t, records, 0, tasks, sink);
        q[u][j].ticket in d.tasks && d.tasks[q[u][j].ticket] == Pending
    {
      var x := q[u][j].ticket;
      assert x !in Tickets(records) by {
        forall l | 0 <= l < |records| ensures records[l].ticket != x {
          assert TicketAt(queues[t], l) == records[l].ticket;
          assert TicketAt(queues[u], j) == x;
        }
      }
      ProcessFromKeeps(t, records, 0, tasks, sink, x);
    }
  }

  /** A settled task stays settled for the rest of a tick. */
  lemma {:induction false} DrainKeepsSettled<E>(types: seq<TypeName>, i: nat, queues: map<TypeName, seq<Record<E>>>,
                                                tasks: map<Ticket, TaskState>, sink: (TypeName, seq<E>) -> SinkOutcome,
                                                x: Ticket)
    requires PendingQueued(queues, tasks) && UniqueTickets(queues)
    requires x in tasks && tasks[x] != Pending
    ensures var r := DrainFrom(types, i, queues, tasks, sink);
      x in r.tasks && r.tasks[x] != Pending
    decreases |types| - i
  {
    if i < |types| {
      var t := types[i];
      var records := QueueOf(queues, t);
      var d := ProcessFrom(t, records, 0, tasks, sink);
      assert x !in Tickets(records[0..]) by {
        assert records[0..] == records;
        forall l | 0 <= l < |records| ensures records[l].ticket != x {
          assert queues[t][l].ticket in tasks;
        }
      }
      ProcessFromKeeps(t, records, 0, tasks, sink, x);
      if d.crash.None? {
        ProcessKeepsOthers(queues, tasks, sink, t);
        DrainKeepsSettled(types, i + 1, queues[t := []], d.tasks, sink, x);
      }
    }
  }

  /** A tick in which no exception escapes settles the task of every record
      queued under a type it visits. */
  lemma {:induction false} DrainSettlesAt<E>(types: seq<TypeName>, i: nat, queues: map<TypeName, seq<Record<E>>>,
                                             tasks: map<Ticket, TaskState>, sink: (TypeName, seq<E>) -> SinkOutcome,
                                             k: nat, j: nat)
    requires i <= k < |types| && types[k] in queues && j < |queues[types[k]]|
    requires PendingQueued(queues, tasks) && UniqueTickets(queues)
    requires DrainFrom(types, i, queues, tasks, sink).crash.None?
    ensures var r := DrainFrom(types, i, queues, tasks, sink);
      queues[types[k]][j].ticket in r.tasks && r.tasks[queues[types[k]][j].ticket] != Pending
    decreases |types| - i
  {
    var t := types[i];
    var records := QueueOf(queues, t);
    var d := ProcessFrom(t, records, 0, tasks, sink);
    DrainUnfold(types, i, queues, tasks, sink);
    ProcessKeepsOthers(queues, tasks, sink, t);
    if types[k] == t {
      SnapshotSeparate(queues, t);
      ProcessSettlesAt(t, records, tasks, sink, j);
      DrainKeepsSettled(types, i + 1, queues[t := []], d.tasks, sink, records[j].ticket);
    } else {
      DrainSettlesAt(types, i + 1, queues[t := []], d.tasks, sink, k, j);
    }
  }

  /** A queue that is empty stays empty for the rest of a tick. */
  lemma {:induction false} DrainKeepsEmpty<E>(types: seq<TypeName>, i: nat, queues: map<TypeName, seq<Record<E>>>,
                                              tasks: map<Ticket, TaskState>, sink: (TypeName, seq<E>) -> SinkOutcome,
                                              u: TypeName)
    requires u in queues && queues[u] == []
    ensures var r := DrainFrom(types, i, queues, tasks, sink);
      u in r.queues && r.queues[u] == []
    decreases |types| - i
  {
    if i < |types| {
      var t := types[i];
      DrainKeepsEmpty(types, i + 1, queues[t := []], ProcessFrom(t, QueueOf(queues, t), 0, tasks, sink).tasks, sink, u);
    }
  }

  /** A tick in which no exception escapes empties the queue of every type it visits. */
  lemma {:induction false} DrainEmptiesAt<E>(types: seq<TypeName>, i: nat, queues: map<TypeName, seq<Record<E>>>,
                                             tasks: map<Ticket, TaskState>, sink: (TypeName, seq<E>) -> SinkOutcome,
                                             k: nat)
    requires i <= k < |types|
    requires DrainFrom(types, i, queues, tasks, sink).crash.None?
    ensures var r := DrainFrom(types, i, queues, tasks, sink);
      types[k] in r.queues && r.queues[types[k]] == []
    decreases |types| - i
  {
    var t := types[i];
    var d := ProcessFrom(t, QueueOf(queues, t), 0, tasks, sink);
    if k == i {
      DrainKeepsEmpty(types, i + 1, queues[t := []], d.tasks, sink, t);
    } else {
      DrainEmptiesAt(types, i + 1, queues[t := []], d.tasks, sink, k);
    }
  }

  /** A tick over a registry of every queue in which no exception escapes
      empties every queue, settles the task of every record that was queued,
      and unsettles no task. */
  lemma DrainSettlesAll<E>(types: seq<TypeName>, queues: map<TypeName, seq<Record<E>>>,
                           tasks: map<Ticket, TaskState>, sink: (TypeName, seq<E>) -> SinkOutcome)
    requires Registered(queues, types) && PendingQueued(queues, tasks) && UniqueTickets(queues)
    requires DrainFrom(types, 0, queues, tasks, sink).crash.None?
    ensures var r := DrainFrom(types, 0, queues, tasks, sink);
      && (forall t | t in queues :: t in r.queues && r.queues[t] == [])
      && (forall t, j | t in queues && 0 <= j < |queues[t]| ::
            queues[t][j].ticket in r.tasks && r.tasks[queues[t][j].ticket] != Pending)
      && (forall x | x in tasks && tasks[x] != Pending :: x in r.tasks && r.tasks[x] != Pending)
  {
    forall t | t in queues
      ensures var r := DrainFrom(types, 0, queues, tasks, sink); t in r.queues && r.queues[t] == []
    {
      var k := TypeIndex(types, t);
      DrainEmptiesAt(types, 0, queues, tasks, sink, k);
    }
    forall t, j | t in queues && 0 <= j < |queues[t]|
      ensures var r := DrainFrom(types, 0, queues, tasks, sink);
        queues[t][j].ticket in r.tasks && r.tasks[queues[t][j].ticket] != Pending
    {
      var k := TypeIndex(types, t);
      DrainSettlesAt(types, 0, queues, tasks, sink, k, j);
    }
    forall x | x in tasks && tasks[x] != Pending
      ensures var r := DrainFrom(types, 0, queues, tasks, sink); x in r.tasks && r.tasks[x] != Pending
    {
      DrainKeepsSettled(types, 0, queues, tasks, sink, x);
    }
  }

  /** The state `CancelRemainInQueue` gives every task it dequeues. */
  const DisposedFault: TaskState := Faulted(ObjectDisposed(DisposedInQueue))

  /** `CancelRemainInQueue` from the `i`-th registered type on: every queued
      record is dequeued and its task faulted with ObjectDisposedException. */
  function CancelFrom<E>(types: seq<TypeName>, i: nat, queues: map<TypeName, seq<Record<E>>>,
                         tasks: map<Ticket, TaskState>): (map<TypeName, seq<Record<E>>>, map<Ticket, TaskState>)
    decreases |types| - i
  {
    if i >= |types| then (queues, tasks)
    else
      var t := types[i];
      CancelFrom(types, i + 1, queues[t := []], Resolve(tasks, QueueOf(queues, t), DisposedFault))
  }

  /** A queue that is empty, or of a type not visited, is left as it is. */
  lemma {:induction false} CancelKeepsQueue<E>(types: seq<TypeName>, i: nat, queues: map<TypeName, seq<Record<E>>>,
                                               tasks: map<Ticket, TaskState>, u: TypeName)
    requires u in queues && (queues[u] == [] || forall k | i <= k < |types| :: types[k] != u)
    ensures var (q, _) := CancelFrom(types, i, queues, tasks); u in q && q[u] == queues[u]
    decreases |types| - i
  {
    if i < |types| {
      var t := types[i];
      CancelKeepsQueue(types, i + 1, queues[t := []], Resolve(tasks, QueueOf(queues, t), DisposedFault), u);
    }
  }

  /** Cancelling empties the queue of every visited type. */
  lemma {:induction false} CancelEmptiesAt<E>(types: seq<TypeName>, i: nat, queues: map<TypeName, seq<Record<E>>>,
                                              tasks: map<Ticket, TaskState>, k: nat)
    requires i <= k < |types|
    ensures var (q, _) := CancelFrom(types, i, queues, tasks); types[k] in q && q[types[k]] == []
    decreases |types| - i
  {
    var t := types[i];
    var next := Resolve(tasks, QueueOf(queues, t), DisposedFault);
    if k == i {
      CancelKeepsQueue(types, i + 1, queues[t := []], next, t);
    } else {
      CancelEmptiesAt(types, i + 1, queues[t := []], next, k);
    }
  }

  /** A task already faulted by the disposal stays so. */
  lemma {:induction false} CancelKeepsFault<E>(types: seq<TypeName>, i: nat, queues: map<TypeName, seq<Record<E>>>,
                                               tasks: map<Ticket, TaskState>, x: Ticket)
    requires x in tasks && tasks[x] == DisposedFault
    ensures var (_, ts) := CancelFrom(types, i, queues, tasks); x in ts && ts[x] == DisposedFault
    decreases |types| - i
  {
    if i < |types| {
      var t := types[i];
      ResolveAt(tasks, QueueOf(queues, t), DisposedFault);
      CancelKeepsFault(types, i + 1, queues[t := []], Resolve(tasks, QueueOf(queues, t), DisposedFault), x);
    }
  }

  /** Cancelling faults the task of every record queued under a visited type. */
  lemma {:induction false} CancelFaultsAt<E>(types: seq<TypeName>, i: nat, queues: map<TypeName, seq<Record<E>>>,
                                             tasks: map<Ticket, TaskState>, k: nat, j: nat)
    requires i <= k < |types| && types[k] in queues && j < |queues[types[k]]|
    ensures var (_, ts) := CancelFrom(types, i, queues, tasks);
      queues[types[k]][j].ticket in ts && ts[queues[types[k]][j].ticket] == DisposedFault
    decreases |types| - i
  {
    var t := types[i];
    var next := Resolve(tasks, QueueOf(queues, t), DisposedFault);
    ResolveAt(tasks, QueueOf(queues, t), DisposedFault);
    if types[k] == t {
      assert QueueOf(queues, t)[j] == queues[types[k]][j];
      CancelKeepsFault(types, i + 1, queues[t := []], next, queues[types[k]][j].ticket);
    } else {
      CancelFaultsAt(types, i + 1, queues[t := []], next, k, j);
    }
  }

  /** Cancelling touches no task held by no record queued under a visited type. */
  lemma {:induction false} CancelKeepsTask<E>(types: seq<TypeName>, i: nat, queues: map<TypeName, seq<Record<E>>>,
                                              tasks: map<Ticket, TaskState>, x: Ticket)
    requires x in tasks
    requires forall k | i <= k < |types| :: x !in Tickets(QueueOf(queues, types[k]))
    ensures var (_, ts) := CancelFrom(types, i, queues, tasks); x in ts && ts[x] == tasks[x]
    decreases |types| - i
  {
    if i < |types| {
      var t := types[i];
      var next := Resolve(tasks, QueueOf(queues, t), DisposedFault);
      ResolveAt(tasks, QueueOf(queues, t), DisposedFault);
      forall k | i + 1 <= k < |types| ensures x !in Tickets(QueueOf(queues[t := []], types[k])) {
        if types[k] != t {
          assert QueueOf(queues[t := []], types[k]) == QueueOf(queues, types[k]);
        }
      }
      CancelKeepsTask(types, i + 1, queues[t := []], next, x);
    }
  }

  /** Cancelling empties every visited queue, keeps the other queues, faults
      the task of every record queued under a visited type with
      ObjectDisposedException and touches no other task. */
  lemma CancelFaultsQueued<E>(types: seq<TypeName>, queues: map<TypeName, seq<Record<E>>>,
                              tasks: map<Ticket, TaskState>)
    ensures var (q, ts) := CancelFrom(types, 0, queues, tasks);
      && (forall k | 0 <= k < |types| :: types[k] in q && q[types[k]] == [])
      && (forall u | u in queues && (forall k | 0 <= k < |types| :: types[k] != u) :: u in q && q[u] == queues[u])
      && (forall k, j | 0 <= k < |types| && types[k] in queues && 0 <= j < |queues[types[k]]| ::
            queues[types[k]][j].ticket in ts && ts[queues[types[k]][j].ticket] == DisposedFault)
      && (forall x | x in tasks && (forall k | 0 <= k < |types| :: x !in Tickets(QueueOf(queues, types[k]))) ::
            x in ts && ts[x] == tasks[x])
  {
    forall k | 0 <= k < |types|
      ensures var (q, _) := CancelFrom(types, 0, queues, tasks); types[k] in q && q[types[k]] == []
    {
      CancelEmptiesAt(types, 0, queues, tasks, k);
    }
    forall u | u in queues && (forall k | 0 <= k < |types| :: types[k] != u)
      ensures var (q, _) := CancelFrom(types, 0, queues, tasks); u in q && q[u] == queues[u]
    {
      CancelKeepsQueue(types, 0, queues, tasks, u);
    }
    forall k, j | 0 <= k < |types| && types[k] in queues && 0 <= j < |queues[types[k]]|
      ensures var (_, ts) := CancelFrom(types, 0, queues, tasks);
        queues[types[k]][j].ticket in ts && ts[queues[types[k]][j].ticket] == DisposedFault
    {
      CancelFaultsAt(types, 0, queues, tasks, k, j);
    }
    forall x | x in tasks && (forall k | 0 <= k < |types| :: x !in Tickets(QueueOf(queues, types[k])))
      ensures var (_, ts) := CancelFrom(types, 0, queues, tasks); x in ts && ts[x] == tasks[x]
    {
      CancelKeepsTask(types, 0, queues, tasks, x);
    }
  }

  /** The types listed in the registry's enumeration order. */
  function TypeSet(types: seq<TypeName>): set<TypeName> {
    if types == [] then {} else {types[0]} + TypeSet(types[1..])
  }

  /** The enumeration order lists no type twice. */
  predicate NoDuplicates(types: seq<TypeName>) {
    types == [] || (types[0] !in TypeSet(types[1..]) && NoDuplicates(types[1..]))
  }

  /** A listed type is in the set of listed types. */
  lemma {:induction false} TypeSetHas(types: seq<TypeName>, k: nat)
    requires k < |types|
    ensures types[k] in TypeSet(types)
  {
    if k > 0 {
      TypeSetHas(types[1..], k - 1);
    }
  }

  /** Every type of the set has a place in the enumeration order. */
  lemma {:induction false} TypeIndex(types: seq<TypeName>, t: TypeName) returns (k: nat)
    requires t in TypeSet(types)
    ensures k < |types| && types[k] == t
  {
    if types[0] == t {
      k := 0;
    } else {
      var k' := TypeIndex(types[1..], t);
      k := k' + 1;
    }
  }

  /** Registering a type not yet listed adds it to the set and keeps the order duplicate-free. */
  lemma {:induction false} TypeSetAppend(types: seq<TypeName>, t: TypeName)
    ensures TypeSet(types + [t]) == TypeSet(types) + {t}
    ensures NoDuplicates(types) && t !in TypeSet(types) ==> NoDuplicates(types + [t])
  {
    if types != [] {
      assert (types + [t])[1..] == types[1..] + [t];
      TypeSetAppend(types[1..], t);
    }
  }

  /** Every type is registered once, in `types`, and has a queue. */
  ghost predicate Registered<E>(queues: map<TypeName, seq<Record<E>>>, types: seq<TypeName>) {
    queues.Keys == TypeSet(types) && NoDuplicates(types)
  }

  /** Any enumeration of the registry, each type once, lists the registered
      types as `types` does. */
  lemma ListingRegistered<E>(queues: map<TypeName, seq<Record<E>>>, order: seq<TypeName>)
    requires IsListing(order, queues)
    ensures Registered(queues, order)
  {
    forall t | t in TypeSet(order) ensures t in queues {
      var k := TypeIndex(order, t);
    }
    forall t | t in queues ensures t in TypeSet(order) {
      var k :| 0 <= k < |order| && order[k] == t;
      TypeSetHas(order, k);
    }
    DistinctNoDuplicates(order);
  }

  lemma {:induction false} DistinctNoDuplicates(s: seq<TypeName>)
    requires forall i, j | 0 <= i < j < |s| :: s[i] != s[j]
    ensures NoDuplicates(s)
  {
    if s != [] {
      forall i, j | 0 <= i < j < |s| - 1 ensures s[1..][i] != s[1..][j] {
        assert s[i + 1] != s[j + 1];
      }
      DistinctNoDuplicates(s[1..]);
      forall t | t in TypeSet(s[1..]) ensures t != s[0] {
        var k := TypeIndex(s[1..], t);
        assert s[k + 1] == t;
      }
    }
  }

  lemma RegisteredHasAll<E>(queues: map<TypeName, seq<Record<E>>>, types: seq<TypeName>)
    requires Registered(queues, types)
    ensures forall k | 0 <= k < |types| :: types[k] in queues
  {
    forall k | 0 <= k < |types| ensures types[k] in queues {
      TypeSetHas(types, k);
    }
  }

  ghost predicate NotQueued<E>(queues: map<TypeName, seq<Record<E>>>, x: Ticket) {
    forall t, j | t in queues && 0 <= j < |queues[t]| :: queues[t][j].ticket != x
  }

  /** The engine's invariant on its state: the registry lists each type
      once, every queued record holds a pending task of its own, and every
      task was handed out before `next`. */
  ghost predicate EngineInv<E>(queues: map<TypeName, seq<Record<E>>>, types: seq<TypeName>,
                               tasks: map<Ticket, TaskState>, next: Ticket) {
    && Registered(queues, types)
    && PendingQueued(queues, tasks)
    && UniqueTickets(queues)
    && (forall x | x in tasks :: x < next)
  }

  ghost predicate AllEmpty<E>(queues: map<TypeName, seq<Record<E>>>) {
    forall t | t in queues :: queues[t] == []
  }

  /** Appending a record with a fresh task, registering its type on first
      use, keeps the invariant. */
  lemma EnqueueKeepsInvariant<E>(queues: map<TypeName, seq<Record<E>>>, types: seq<TypeName>,
                                 tasks: map<Ticket, TaskState>, next: Ticket, t: TypeName, entity: E)
    requires EngineInv(queues, types, tasks, next)
    ensures EngineInv(queues[t := QueueOf(queues, t) + [Record(entity, next)]],
                      if t in queues then types else types + [t], tasks[next := Pending], next + 1)
  {
    var q: map<TypeName, seq<Record<E>>> := queues[t := QueueOf(queues, t) + [Record(entity, next)]];
    assert forall u, j | u in q && 0 <= j < |q[u]| && !(u == t && j == |QueueOf(queues, t)|) ::
      u in queues && j < |queues[u]| && q[u][j] == queues[u][j];
    assert forall u, j | u in q && 0 <= j < |q[u]| && !(u == t && j == |QueueOf(queues, t)|) :: q[u][j].ticket < next;
    forall u, j, w, l | u in q && w in q && 0 <= j < |q[u]| && 0 <= l < |q[w]| && TicketAt(q[u], j) == TicketAt(q[w], l)
      ensures u == w && j == l
    {
      if !(u == t && j == |QueueOf(queues, t)|) && !(w == t && l == |QueueOf(queues, t)|) {
        assert TicketAt(queues[u], j) == TicketAt(q[u], j);
        assert TicketAt(queues[w], l) == TicketAt(q[w], l);
      }
    }
    TypeSetAppend(types, t);
  }

  /** Setting a task held by no queued record keeps the invariant. */
  lemma SetTaskKeepsInvariant<E>(queues: map<TypeName, seq<Record<E>>>, types: seq<TypeName>,
                                 tasks: map<Ticket, TaskState>, next: Ticket, x: Ticket, s: TaskState)
    requires EngineInv(queues, types, tasks, next)
    requires x in tasks && NotQueued(queues, x)
    ensures EngineInv(queues, types, tasks[x := s], next)
  {
  }

  /** Faulting the records of one queue once it is emptied leaves the
      records of the other queues with pending, distinct tasks. */
  lemma ResolveKeepsOthers<E>(queues: map<TypeName, seq<Record<E>>>, tasks: map<Ticket, TaskState>,
                              t: TypeName, s: TaskState)
    requires PendingQueued(queues, tasks) && UniqueTickets(queues)
    ensures PendingQueued(queues[t := []], Resolve(tasks, QueueOf(queues, t), s)) && UniqueTickets(queues[t := []])
  {
    var records := QueueOf(queues, t);
    var q: map<TypeName, seq<Record<E>>> := queues[t := []];
    ResolveAt(tasks, records, s);
    forall u, j | u in q && 0 <= j < |q[u]|
      ensures q[u][j].ticket in Resolve(tasks, records, s) && Resolve(tasks, records, s)[q[u][j].ticket] == Pending
    {
      var x := q[u][j].ticket;
      assert x !in Tickets(records) by {
        forall l | 0 <= l < |records| ensures records[l].ticket != x {
          assert TicketAt(queues[t], l) == records[l].ticket;
          assert TicketAt(queues[u], j) == x;
        }
      }
    }
  }

  /** One step of the chunk loop: the first chunk from `offset` goes to the
      sink; a failed `Process` ends there, any other outcome settles the chunk
      and the loop goes on after it. */
  lemma ProcessUnfold<E>(t: TypeName, records: seq<Record<E>>, offset: nat, tasks: map<Ticket, TaskState>,
                         sink: (TypeName, seq<E>) -> SinkOutcome)
    requires offset < |records|
    ensures var end := ChunkEnd(offset, |records|);
      var avail := records[offset..end];
      var outcome := sink(t, Entities(avail));
      var b := Batch(t, Entities(avail), outcome);
      var d := ProcessFrom(t, records, offset, tasks, sink);
      if outcome.ProcessFailed? then d == Drain(tasks, [b], Some(outcome.error))
      else
        var r := ProcessFrom(t, records, end, Resolve(tasks, avail, Resolution(outcome)), sink);
        d == Drain(r.tasks, [b] + r.batches, r.crash)
  {
  }

  /** One chunk of a snapshot whose remaining tasks are pending: the chunk
      holds distinct pending tasks, and settling them leaves the tasks of the
      rest of the snapshot pending. */
  lemma ChunkStep<E>(records: seq<Record<E>>, offset: nat, end: nat, tasks: map<Ticket, TaskState>, s: TaskState)
    requires offset <= end <= |records| && DistinctTickets(records)
    requires forall j | offset <= j < |records| :: records[j].ticket in tasks && tasks[records[j].ticket] == Pending
    ensures DistinctTickets(records[offset..end])
    ensures forall j | 0 <= j < |records[offset..end]| ::
      records[offset..end][j].ticket in tasks && tasks[records[offset..end][j].ticket] == Pending
    ensures forall j | end <= j < |records| ::
      records[j].ticket in Resolve(tasks, records[offset..end], s) && Resolve(tasks, records[offset..end], s)[records[j].ticket] == Pending
  {
    assert forall j | 0 <= j < end - offset :: records[offset..end][j] == records[offset + j];
    forall i, j | 0 <= i < j < end - offset ensures TicketAt(records[offset..end], i) != TicketAt(records[offset..end], j) {
      assert TicketAt(records[offset..end], i) == TicketAt(records, offset + i);
      assert TicketAt(records[offset..end], j) == TicketAt(records, offset + j);
    }
    ResolveAt(tasks, records[offset..end], s);
    forall j | end <= j < |records|
      ensures records[j].ticket in Resolve(tasks, records[offset..end], s)
      ensures Resolve(tasks, records[offset..end], s)[records[j].ticket] == Pending
    {
      TicketOutsideSlice(records, offset, end, j);
    }
  }

  /** Emptying one queue of an engine whose queued tasks are pending and
      distinct: the snapshot holds distinct pending tasks, and settling them
      in any way that keeps the task set leaves the other queued tasks
      pending. */
  lemma QueueStep<E>(queues: map<TypeName, seq<Record<E>>>, tasks: map<Ticket, TaskState>, t: TypeName, s: TaskState)
    requires PendingQueued(queues, tasks) && UniqueTickets(queues) && t in queues
    ensures DistinctTickets(queues[t])
    ensures forall j | 0 <= j < |queues[t]| :: queues[t][j].ticket in tasks && tasks[queues[t][j].ticket] == Pending
    ensures Resolve(tasks, queues[t], s).Keys == tasks.Keys
    ensures PendingQueued(queues[t := []], Resolve(tasks, queues[t], s)) && UniqueTickets(queues[t := []])
  {
    SnapshotSeparate(queues, t);
    ResolveKeepsOthers(queues, tasks, t, s);
    ResolveAt(tasks, queues[t], s);
    assert Tickets(queues[t]) <= tasks.Keys;
  }

  /** The same for processing the snapshot through the sink. */
  lemma SnapshotStep<E>(queues: map<TypeName, seq<Record<E>>>, tasks: map<Ticket, TaskState>, t: TypeName,
                        sink: (TypeName, seq<E>) -> SinkOutcome)
    requires PendingQueued(queues, tasks) && UniqueTickets(queues) && t in queues
    ensures DistinctTickets(queues[t])
    ensures forall j | 0 <= j < |queues[t]| :: queues[t][j].ticket in tasks && tasks[queues[t][j].ticket] == Pending
    ensures var d := ProcessFrom(t, queues[t], 0, tasks, sink);
      && d.tasks.Keys == tasks.Keys
      && PendingQueued(queues[t := []], d.tasks) && UniqueTickets(queues[t := []])
  {
    SnapshotSeparate(queues, t);
    ProcessKeepsOthers(queues, tasks, sink, t);
    var d := ProcessFrom(t, queues[t], 0, tasks, sink);
    ProcessFromKeys(t, queues[t], 0, tasks, sink);
  }

  /** The engine. `Loop` is the timer's tick; `Dispose` ends the engine. */
  class EntityQueue<E> {
    /** The registry `xqueues`: one FIFO per type, registered on first use. */
    var queues: map<TypeName, seq<Record<E>>>
    /** The registered types in order of registration, each once. The
        registry's enumeration order is unspecified, so `Loop` and `Dispose`
        take it as a parameter: any listing of the registered types. */
    var types: seq<TypeName>
    /** The completion state of every task the engine has handed out. */
    var tasks: map<Ticket, TaskState>
    var nextTicket: Ticket
    var disposed: bool
    var writing: bool

    /** The engine's invariant, with a disposed engine holding no queued record. */
    ghost predicate Valid()
      reads this
    {
      Inv() && (disposed ==> AllEmpty(queues))
    }

    ghost predicate Inv()
      reads this
    {
      EngineInv(queues, types, tasks, nextTicket)
    }

    constructor ()
      ensures Valid()
      ensures queues == map[] && types == [] && tasks == map[] && nextTicket == 0
      ensures !disposed && !writing
    {
      queues, types, tasks, nextTicket := map[], [], map[], 0;
      disposed, writing := false, false;
    }

    /** `Insert<T>`: refused once disposed; otherwise one record with a fresh
        pending task is appended to the tail of the queue for `t`, which is
        created on first use. */
    method Insert(t: TypeName, entity: E) returns (r: Result<Ticket>)
      requires Valid()
      modifies this
      ensures Valid()
      ensures old(disposed) ==> r == Failure(ObjectDisposed(DisposedOnInsert)) && unchanged(this)
      ensures !old(disposed) ==>
        && r == Success(old(nextTicket))
        && old(nextTicket) !in old(tasks)
        && nextTicket == old(nextTicket) + 1
        && tasks == old(tasks)[old(nextTicket) := Pending]
        && queues == old(queues)[t := QueueOf(old(queues), t) + [Record(entity, old(nextTicket))]]
        && types == (if t in old(queues) then old(types) else old(types) + [t])
        && disposed == old(disposed) && writing == old(writing)
    {
      if disposed {
        return Failure(ObjectDisposed(DisposedOnInsert));
      }
      var ticket := nextTicket;
      EnqueueKeepsInvariant(queues, types, tasks, ticket, t, entity);
      if t !in queues {
        types := types + [t];
      }
      queues := queues[t := QueueOf(queues, t) + [Record(entity, ticket)]];
      tasks := tasks[ticket := Pending];
      nextTicket := nextTicket + 1;
      r := Success(ticket);
    }

    /** Sets a pending task once. A TaskCompletionSource refuses a second
        resolution; the precondition is that it never comes to one. */
    method SetState(x: Ticket, s: TaskState)
      requires x in tasks && tasks[x] == Pending
      modifies this`tasks
      ensures tasks == old(tasks)[x := s]
    {
      tasks := tasks[x := s];
    }

    /** `DeQueueAll`: takes at most `n` records (the count read when it
        starts) from the head of the queue of `t`, in FIFO order. */
    method DeQueueAll(t: TypeName, n: nat) returns (records: seq<Record<E>>)
      requires t in queues
      modifies this`queues
      ensures records == old(queues[t])[..Min(n, |old(queues[t])|)]
      ensures queues == old(queues)[t := old(queues[t])[Min(n, |old(queues[t])|)..]]
    {
      records := [];
      var count := n;
      ghost var rest := queues[t];
      while count > 0 && queues[t] != []
        invariant t in queues
        invariant queues == old(queues)[t := rest] && queues[t] == rest
        invariant old(queues[t]) == records + rest
        invariant |records| + count == n
      {
        var item := queues[t][0];
        queues := queues[t := queues[t][1..]];
        rest := rest[1..];
        records := records + [item];
        count := count - 1;
      }
      assert records == old(queues[t])[..|records|];
    }

    /** Settles the task of every record of one chunk with `s`. */
    method ResolveChunk(availables: seq<Record<E>>, s: TaskState)
      requires DistinctTickets(availables)
      requires forall j | 0 <= j < |availables| :: availables[j].ticket in tasks && tasks[availables[j].ticket] == Pending
      modifies this`tasks
      ensures tasks == Resolve(old(tasks), availables, s)
    {
      var i := 0;
      while i < |availables|
        invariant 0 <= i <= |availables|
        invariant Resolve(tasks, availables[i..], s) == Resolve(old(tasks), availables, s)
        invariant forall j | i <= j < |availables| :: availables[j].ticket in tasks && tasks[availables[j].ticket] == Pending
      {
        assert availables[i..][1..] == availables[i + 1..];
        forall j | i < j < |availables| ensures availables[j].ticket != availables[i].ticket {
          assert TicketAt(availables, i) != TicketAt(availables, j);
        }
        SetState(availables[i].ticket, s);
        i := i + 1;
      }
    }

    /** The chunk loop of one type's snapshot: the next chunk of at most 1000
        records goes to the sink, then the chunk's tasks are settled, until
        the snapshot is used up or `Process` fails. */
    method ProcessSnapshot(t: TypeName, records: seq<Record<E>>, sink: (TypeName, seq<E>) -> SinkOutcome)
      returns (sent: seq<Batch<E>>, crash: Option<Exception>)
      requires DistinctTickets(records)
      requires forall j | 0 <= j < |records| :: records[j].ticket in tasks && tasks[records[j].ticket] == Pending
      modifies this`tasks
      ensures var d := ProcessFrom(t, records, 0, old(tasks), sink);
        tasks == d.tasks && sent == d.batches && crash == d.crash
    {
      sent, crash := [], None;
      ghost var d0 := ProcessFrom(t, records, 0, tasks, sink);
      var offset := 0;
      while offset < |records|
        invariant 0 <= offset <= |records|
        invariant forall j | offset <= j < |records| :: records[j].ticket in tasks && tasks[records[j].ticket] == Pending
        invariant var d := ProcessFrom(t, records, offset, tasks, sink);
          d0.tasks == d.tasks && d0.crash == d.crash && d0.batches == sent + d.batches
      {
        var end := ChunkEnd(offset, |records|);
        var availables := records[offset..end];
        var outcome := sink(t, Entities(availables));
        ProcessUnfold(t, records, offset, tasks, sink);
        ghost var before := sent;
        sent := sent + [Batch(t, Entities(availables), outcome)];
        if outcome.ProcessFailed? {
          crash := Some(outcome.error);
          return;
        }
        ghost var r := ProcessFrom(t, records, end, Resolve(tasks, availables, Resolution(outcome)), sink);
        assert sent + r.batches == before + ([Batch(t, Entities(availables), outcome)] + r.batches);
        ChunkStep(records, offset, end, tasks, Resolution(outcome));
        ResolveChunk(availables, Resolution(outcome));
        offset := end;
      }
    }

    /** One pass of the tick's `foreach`: the queue of `t` is drained into a
        snapshot, which is processed chunk by chunk. */
    method DrainQueue(t: TypeName, sink: (TypeName, seq<E>) -> SinkOutcome, ghost order: seq<TypeName>, ghost i: nat,
                      ghost total: Tick<E>, ghost before: seq<Batch<E>>)
      returns (sent: seq<Batch<E>>, failure: Option<Exception>)
      requires i < |order| && order[i] == t && TickSoFar(order, i, queues, tasks, sink, total, before)
      requires t in queues && PendingQueued(queues, tasks) && UniqueTickets(queues)
      modifies this`queues, this`tasks
      ensures failure.Some? ==> total == Tick(queues, tasks, before + sent, failure, i)
      ensures failure.None? ==> TickSoFar(order, i + 1, queues, tasks, sink, total, before + sent)
      ensures queues.Keys == old(queues).Keys && tasks.Keys == old(tasks).Keys
      ensures PendingQueued(queues, tasks) && UniqueTickets(queues)
    {
      SnapshotStep(queues, tasks, t, sink);
      ghost var q0, tasks0 := queues, tasks;
      var records := DeQueueAll(t, |queues[t]|);
      assert records == old(queues)[t];
      sent, failure := ProcessSnapshot(t, records, sink);
      DrainStep(order, i, q0, tasks0, sink, total, before, queues, tasks, sent, failure);
    }

    /** The timer's tick. Nothing happens once disposed. Otherwise each type's
        queue, in the enumeration order `order`, is drained into a snapshot,
        which goes to the sink in chunks of
        at most 1000; a chunk whose `SaveChanges` fails is faulted with that
        exception and the next chunk follows; an exception from `Process`
        escapes the tick and leaves its records pending. A tick from which
        nothing escapes empties every queue and settles every task that was
        queued when it began. */
    method Loop(sink: (TypeName, seq<E>) -> SinkOutcome, order: seq<TypeName>)
      returns (batches: seq<Batch<E>>, crash: Option<Exception>)
      requires Valid() && IsListing(order, queues)
      modifies this
      ensures Valid()
      ensures old(disposed) ==> unchanged(this) && batches == [] && crash == None
      ensures !old(disposed) ==>
        var r := DrainFrom(order, 0, old(queues), old(tasks), sink);
        && queues == r.queues && tasks == r.tasks && batches == r.batches && crash == r.crash
        && writing == (r.typesDone == 0)
        && types == old(types) && nextTicket == old(nextTicket) && disposed == old(disposed)
    {
      batches, crash := [], None;
      if disposed {
        return;
      }
      writing := true;
      ListingRegistered(queues, order);
      RegisteredHasAll(queues, order);
      batches, crash := DrainTypes(sink, order);
    }

    /** The `foreach` over the registry: each type's queue in turn is drained
        and processed, until an exception escapes. `writing` is cleared
        after each type that finishes. */
    method DrainTypes(sink: (TypeName, seq<E>) -> SinkOutcome, order: seq<TypeName>)
      returns (batches: seq<Batch<E>>, crash: Option<Exception>)
      requires forall k | 0 <= k < |order| :: order[k] in queues
      requires PendingQueued(queues, tasks) && UniqueTickets(queues)
      requires writing
      modifies this`queues, this`tasks, this`writing
      ensures var r := DrainFrom(order, 0, old(queues), old(tasks), sink);
        && queues == r.queues && tasks == r.tasks && batches == r.batches && crash == r.crash
        && writing == (r.typesDone == 0)
      ensures queues.Keys == old(queues).Keys && tasks.Keys == old(tasks).Keys
      ensures PendingQueued(queues, tasks) && UniqueTickets(queues)
    {
      batches, crash := [], None;
      ghost var total := DrainFrom(order, 0, queues, tasks, sink);
      var i := 0;
      while i < |order|
        invariant 0 <= i <= |order|
        invariant queues.Keys == old(queues).Keys && tasks.Keys == old(tasks).Keys
        invariant PendingQueued(queues, tasks) && UniqueTickets(queues)
        invariant writing == (i == 0)
        invariant TickSoFar(order, i, queues, tasks, sink, total, batches)
      {
        var t := order[i];
        var sent, failure := DrainQueue(t, sink, order, i, total, batches);
        batches := batches + sent;
        if failure.Some? {
          crash := failure;
          return;
        }
        writing := false;
        i := i + 1;
      }
    }

    /** `Dispose`: idempotent. The first call marks the engine disposed (the
        grace wait for a running tick is a no-op here, since no tick runs
        beside it) and faults every still-queued task with
        ObjectDisposedException, leaving all queues empty and every other
        task as it was. */
    method Dispose(order: seq<TypeName>)
      requires Valid() && IsListing(order, queues)
      modifies this
      ensures Valid()
      ensures old(disposed) ==> unchanged(this)
      ensures !old(disposed) ==>
        && disposed
        && (queues, tasks) == CancelFrom(order, 0, old(queues), old(tasks))
        && types == old(types) && nextTicket == old(nextTicket) && writing == old(writing)
      ensures !old(disposed) ==>
        && (forall t, j | t in old(queues) && 0 <= j < |old(queues)[t]| ::
              old(queues)[t][j].ticket in tasks && tasks[old(queues)[t][j].ticket] == DisposedFault)
        && (forall x | x in old(tasks) && NotQueued(old(queues), x) :: x in tasks && tasks[x] == old(tasks)[x])
    {
      if disposed {
        return;
      }
      disposed := true;
      ListingRegistered(queues, order);
      CancelRemainInQueue(order);
      CancelFaultsQueued(order, old(queues), old(tasks));
      forall t, j | t in old(queues) && 0 <= j < |old(queues)[t]|
        ensures old(queues)[t][j].ticket in tasks && tasks[old(queues)[t][j].ticket] == DisposedFault
      {
        var k := TypeIndex(order, t);
      }
      forall x | x in old(tasks) && NotQueued(old(queues), x) ensures x in tasks && tasks[x] == old(tasks)[x] {
        forall k | 0 <= k < |order| ensures x !in Tickets(QueueOf(old(queues), order[k])) { }
      }
    }

    /** Dequeues every record of every registered queue and faults its task. */
    method CancelRemainInQueue(order: seq<TypeName>)
      requires Inv() && Registered(queues, order)
      modifies this`queues, this`tasks
      ensures Inv() && AllEmpty(queues)
      ensures (queues, tasks) == CancelFrom(order, 0, old(queues), old(tasks))
    {
      ghost var total := CancelFrom(order, 0, queues, tasks);
      var i := 0;
      while i < |order|
        invariant 0 <= i <= |order|
        invariant queues.Keys == old(queues).Keys && tasks.Keys == old(tasks).Keys
        invariant PendingQueued(queues, tasks) && UniqueTickets(queues)
        invariant forall k | 0 <= k < i :: QueueOf(queues, order[k]) == []
        invariant CancelFrom(order, i, queues, tasks) == total
      {
        var t := order[i];
        TypeSetHas(order, i);
        ghost var q0, tasks0 := queues, tasks;
        QueueStep(queues, tasks, t, DisposedFault);
        CancelQueue(t);
        assert queues == q0[t := []];
        forall k | 0 <= k < i + 1 ensures QueueOf(queues, order[k]) == [] {
          if k < i && order[k] != t { assert QueueOf(queues, order[k]) == QueueOf(q0, order[k]); }
        }
        i := i + 1;
      }
      forall u | u in queues ensures queues[u] == [] {
        var k := TypeIndex(order, u);
      }
    }
    /** Dequeues the records of one type's queue one at a time, from the
        head, faulting each record's task as it is taken. */
    method CancelQueue(t: TypeName)
      requires t in queues && DistinctTickets(queues[t])
      requires forall j | 0 <= j < |queues[t]| :: queues[t][j].ticket in tasks && tasks[queues[t][j].ticket] == Pending
      modifies this`queues, this`tasks
      ensures queues == old(queues)[t := []]
      ensures tasks == Resolve(old(tasks), old(queues[t]), DisposedFault)
    {
      ghost var rest := queues[t];
      while queues[t] != []
        invariant queues == old(queues)[t := rest] && queues[t] == rest
        invariant DistinctTickets(rest)
        invariant forall j | 0 <= j < |rest| :: rest[j].ticket in tasks && tasks[rest[j].ticket] == Pending
        invariant Resolve(tasks, rest, DisposedFault) == Resolve(old(tasks), old(queues[t]), DisposedFault)
        decreases |rest|
      {
        var r := queues[t][0];
        forall i, j | 0 <= i < j < |rest| - 1 ensures TicketAt(rest[1..], i) != TicketAt(rest[1..], j) {
          assert TicketAt(rest, i + 1) != TicketAt(rest, j + 1);
        }
        forall j | 1 <= j < |rest| ensures rest[j].ticket != r.ticket {
          assert TicketAt(rest, 0) != TicketAt(rest, j);
        }
        queues := queues[t := queues[t][1..]];
        rest := rest[1..];
        SetState(r.ticket, DisposedFault);
      }
    }
  }
}
