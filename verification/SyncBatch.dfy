/** What a joining peer applies after it has loaded a snapshot: which operations, in
    which order, and how far they take the clock. */
module SyncBatch {
  import opened Types
  import opened Replicas
  import opened Delivery
  import opened LateJoin
  import opened Notifications

  /** The operations applied while `log` is received, in order. */
  function BatchOf(p: Peer, log: seq<Operation>): seq<Operation> {
    if log == [] then []
    else BatchOf(p, log[..|log| - 1]) + AppliedBy(ReceiveAll(p, log[..|log| - 1]), log[|log| - 1])
  }

  /** The operations applied after a snapshot is loaded: the buffer's, then the final drain's. */
  function ReplayBatch(p: Peer, buffer: seq<Operation>): seq<Operation> {
    var q := ReceiveAll(p, buffer);
    BatchOf(p, buffer) + Drain(q.replica, q.pending).applied
  }

  // --- the batch, applied one by one, is the sync ------------------------------------

  lemma {:induction false} BatchOfRuns(p: Peer, log: seq<Operation>)
    ensures RunsFrom(p.replica.content, BatchOf(p, log))
    ensures IntegrateAll(p.replica.content, BatchOf(p, log)) == ReceiveAll(p, log).replica.content
  {
    if log != [] {
      var rest, op := log[..|log| - 1], log[|log| - 1];
      BatchOfRuns(p, rest);
      BatchRuns(ReceiveAll(p, rest), op);
      RunsConcat(p.replica.content, BatchOf(p, rest), AppliedBy(ReceiveAll(p, rest), op));
    }
  }

  lemma ReplayRuns(p: Peer, buffer: seq<Operation>)
    ensures RunsFrom(p.replica.content, ReplayBatch(p, buffer))
    ensures IntegrateAll(p.replica.content, ReplayBatch(p, buffer)) == Replay(p, buffer).replica.content
  {
    var q := ReceiveAll(p, buffer);
    BatchOfRuns(p, buffer);
    DrainRuns(q.replica, q.pending);
    RunsConcat(p.replica.content, BatchOf(p, buffer), Drain(q.replica, q.pending).applied);
  }

  // --- which operations it holds --------------------------------------------------------

  lemma ReceiveConserves(p: Peer, op: Operation)
    ensures multiset(AppliedBy(p, op)) + multiset(Receive(p, op).pending) == multiset(p.pending) + multiset{op}
  {
    if CanApply(p.replica.content, op) {
      DrainConserves(Apply(p.replica, op), p.pending);
    }
  }

  lemma Exchange<T>(applied: multiset<T>, more: multiset<T>, left: multiset<T>, left': multiset<T>,
                    all: multiset<T>, next: multiset<T>)
    requires applied + left == all && more + left' == left + next
    ensures applied + more + left' == all + next
  {
    assert applied + more + left' == applied + (more + left') == applied + left + next;
  }

  lemma {:induction false} BatchConserves(p: Peer, log: seq<Operation>)
    ensures multiset(BatchOf(p, log)) + multiset(ReceiveAll(p, log).pending) == multiset(p.pending) + multiset(log)
  {
    if log != [] {
      var rest, op := log[..|log| - 1], log[|log| - 1];
      var q := ReceiveAll(p, rest);
      assert log == rest + [op];
      BatchConserves(p, rest);
      ReceiveConserves(q, op);
      Exchange(multiset(BatchOf(p, rest)), multiset(AppliedBy(q, op)), multiset(q.pending),
               multiset(Receive(q, op).pending), multiset(p.pending) + multiset(rest), multiset{op});
    }
  }

  /** Every queued or buffered operation is applied, or still waits. */
  lemma ReplayConserves(p: Peer, buffer: seq<Operation>)
    ensures multiset(ReplayBatch(p, buffer)) + multiset(Replay(p, buffer).pending) ==
            multiset(p.pending) + multiset(buffer)
  {
    var q := ReceiveAll(p, buffer);
    BatchConserves(p, buffer);
    DrainConserves(q.replica, q.pending);
  }

  /** A queued or buffered operation that takes effect on the clock: a delete, whether it
      meets its target or not, and an insert whose chain is complete, new or repeated. */
  ghost predicate Takes(c: Content, pending: seq<Operation>, buffer: seq<Operation>, op: Operation) {
    (op in pending || op in buffer) && (op.kind == DELETE || Ready(Sources(c, pending, buffer), op.id))
  }

  /** Exactly those operations are applied. */
  lemma ReplayTakes(snap: Replica, pending: seq<Operation>, buffer: seq<Operation>, op: Operation)
    requires Joinable(snap.content, pending, buffer)
    ensures op in ReplayBatch(Peer(snap, pending), buffer) <==> Takes(snap.content, pending, buffer, op)
  {
    var p, s := Peer(snap, pending), Sources(snap.content, pending, buffer);
    var q, batch := Replay(p, buffer), ReplayBatch(p, buffer);
    SyncExplained(snap, pending, buffer);
    ExactReadiness(s, q);
    ReplayConserves(p, buffer);
    assert op in multiset(batch) + multiset(q.pending) <==> op in multiset(pending) + multiset(buffer);
    assert op in multiset(batch) <==> op in batch;
    if op in batch && op.kind == INSERT {
      ReplayRuns(p, buffer);
      RunIsKnown(snap.content, batch, op);
      assert Known(q.replica.content, op.id) <==> Ready(s, op.id);
    }
  }

  // --- the clock ----------------------------------------------------------------------------

  function TickAll(clock: int, ops: seq<Operation>): int
    decreases |ops|
  {
    if ops == [] then clock else TickAll(Tick(clock, ops[0]), ops[1..])
  }

  /** The larger of the old clock and one past the clocks of the operations. */
  lemma {:induction false} TickAllIs(clock: int, ops: seq<Operation>, n: int)
    ensures n <= TickAll(clock, ops) <==> n <= clock || exists op :: op in ops && n <= op.id.clock + 1
    decreases |ops|
  {
    if ops != [] {
      assert ops == [ops[0]] + ops[1..];
      TickAllIs(Tick(clock, ops[0]), ops[1..], n);
    }
  }

  lemma {:induction false} TickAllConcat(clock: int, a: seq<Operation>, b: seq<Operation>)
    ensures TickAll(clock, a + b) == TickAll(TickAll(clock, a), b)
    decreases |a|
  {
    if a == [] {
      assert a + b == b;
    } else {
      assert (a + b)[1..] == a[1..] + b;
      TickAllConcat(Tick(clock, a[0]), a[1..], b);
    }
  }

  lemma {:induction false} PassTicks(r: Replica, ops: seq<Operation>)
    ensures Pass(r, ops).r.clock == TickAll(r.clock, Pass(r, ops).applied)
    decreases |ops|
  {
    if ops != [] {
      if CanApply(r.content, ops[0]) {
        PassTicks(Apply(r, ops[0]), ops[1..]);
        assert Pass(r, ops).applied[1..] == Pass(Apply(r, ops[0]), ops[1..]).applied;
      } else {
        PassTicks(r, ops[1..]);
      }
    }
  }

  lemma {:induction false} DrainTicks(r: Replica, ops: seq<Operation>)
    ensures Drain(r, ops).r.clock == TickAll(r.clock, Drain(r, ops).applied)
    decreases |ops|
  {
    var d := Pass(r, ops);
    PassTicks(r, ops);
    if d.applied != [] {
      DrainTicks(d.r, d.left);
      TickAllConcat(r.clock, d.applied, Drain(d.r, d.left).applied);
    }
  }

  lemma ReceiveTicks(p: Peer, op: Operation)
    ensures Receive(p, op).replica.clock == TickAll(p.replica.clock, AppliedBy(p, op))
  {
    if CanApply(p.replica.content, op) {
      DrainTicks(Apply(p.replica, op), p.pending);
      assert AppliedBy(p, op)[1..] == Drain(Apply(p.replica, op), p.pending).applied;
    }
  }

  lemma {:induction false} BatchTicks(p: Peer, log: seq<Operation>)
    ensures ReceiveAll(p, log).replica.clock == TickAll(p.replica.clock, BatchOf(p, log))
  {
    if log != [] {
      var rest, op := log[..|log| - 1], log[|log| - 1];
      BatchTicks(p, rest);
      ReceiveTicks(ReceiveAll(p, rest), op);
      TickAllConcat(p.replica.clock, BatchOf(p, rest), AppliedBy(ReceiveAll(p, rest), op));
    }
  }

  lemma ReplayTicks(p: Peer, buffer: seq<Operation>)
    ensures Replay(p, buffer).replica.clock == TickAll(p.replica.clock, ReplayBatch(p, buffer))
  {
    var q := ReceiveAll(p, buffer);
    BatchTicks(p, buffer);
    DrainTicks(q.replica, q.pending);
    TickAllConcat(p.replica.clock, BatchOf(p, buffer), Drain(q.replica, q.pending).applied);
  }

  /** The clock of the snapshot, the queue and the buffer together reach `n`. */
  ghost predicate ClockReaches(snap: Replica, pending: seq<Operation>, buffer: seq<Operation>, n: int) {
    n <= snap.clock || exists op :: Takes(snap.content, pending, buffer, op) && n <= op.id.clock + 1
  }

  /** The clock after a sync, in closed form: the larger of the snapshot's clock and one
      past the clocks of the operations that take effect. */
  lemma ClockAfterSync(snap: Replica, pending: seq<Operation>, buffer: seq<Operation>, n: int)
    requires Joinable(snap.content, pending, buffer)
    ensures n <= Replay(Peer(snap, pending), buffer).replica.clock <==> ClockReaches(snap, pending, buffer, n)
  {
    var batch := ReplayBatch(Peer(snap, pending), buffer);
    ReplayTicks(Peer(snap, pending), buffer);
    TickAllIs(snap.clock, batch, n);
    forall op ensures op in batch <==> Takes(snap.content, pending, buffer, op) {
      ReplayTakes(snap, pending, buffer, op);
    }
  }
}
