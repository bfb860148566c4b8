/** The delivery pipeline of one peer. Every region guarded by the pipeline's mutex
    (src/pipeline.cpp) is one method; the queues between threads are objects. */
module Pipelines {
  import opened Types
  import opened PathOrder
  import opened CanonicalOrder
  import opened PreOrder
  import opened Visible
  import opened Replicas
  import opened Delivery
  import opened Notifications
  import opened Convergence
  import opened LateJoin
  import opened SyncBatch
  import opened Engine
  import Codec
  import Serializer

  class MpscQueue<T> {
    var q: seq<T>

    constructor ()
      ensures q == []
    {
      q := [];
    }

    method Push(item: T)
      modifies this
      ensures q == old(q) + [item]
    {
      q := q + [item];
    }

    /** Takes the front item; refuses once `stop` is set, even with items left. */
    method Pop(stop: bool) returns (r: Result<T>)
      requires q != [] || stop
      modifies this
      ensures stop ==> r == Err && q == old(q)
      ensures !stop ==> r == Ok(old(q)[0]) && q == old(q)[1..]
    {
      if stop {
        return Err;
      }
      r := Ok(q[0]);
      q := q[1..];
    }
  }

  /** The clock can step past each of these operations without overflow. */
  predicate Tickable(ops: seq<Operation>) {
    forall op :: op in ops ==> op.id.clock < INT32_MAX
  }

  lemma {:induction false} NotesConcat(c: Content, a: seq<Operation>, b: seq<Operation>)
    ensures Notes(c, a + b) == Notes(c, a) + Notes(IntegrateAll(c, a), b)
    ensures IntegrateAll(c, a + b) == IntegrateAll(IntegrateAll(c, a), b)
    decreases |a|
  {
    if a == [] {
      assert a + b == b;
    } else {
      assert (a + b)[1..] == a[1..] + b;
      NotesConcat(Integrate(c, a[0]), a[1..], b);
    }
  }

  lemma NotesStep(c: Content, a: seq<Operation>, op: Operation)
    ensures Notes(c, a + [op]) == Notes(c, a) + [NoteOf(IntegrateAll(c, a), op)]
    ensures IntegrateAll(c, a + [op]) == Integrate(IntegrateAll(c, a), op)
  {
    NotesConcat(c, a, [op]);
    var d := IntegrateAll(c, a);
    assert [op][1..] == [];
    assert Notes(d, [op]) == [NoteOf(d, op)] + Notes(Integrate(d, op), []);
  }

  // --- draining the pending queue -------------------------------------------------

  /** The offset is the rank of the operation's character in `rows`, where it is seen if
      it is visible; -1 if it is not there. */
  ghost predicate Locates(rows: seq<Row>, note: Note) {
    && (forall k :: 0 < k < |rows| && rows[k].id == note.op.id ==>
          && note.offset == Rank(rows, k)
          && (!rows[k].tombstoned ==> VisibleId(rows, note.offset) == note.op.id))
    && ((forall k :: 0 < k < |rows| ==> rows[k].id != note.op.id) ==> note.offset == -1)
  }

  lemma ReportedLocates(c: Content, op: Operation)
    requires Rooted(c) && Replicas.CanApply(c, op)
    ensures Locates(Render(Integrate(c, op)), NoteOf(c, op))
  {
    var rows := Render(Integrate(c, op));
    forall k | 0 < k < |rows| && rows[k].id == op.id
      ensures ReportedOffset(c, op) == Rank(rows, k)
      ensures !rows[k].tombstoned ==> VisibleId(rows, ReportedOffset(c, op)) == op.id
    {
      ReportedIs(c, op, k);
    }
    ReportedIs(c, op, 0);
  }

  /** Applies one operation and reports where it shows. */
  method ApplyOne(crdt: CRDTEngine, op: Operation) returns (note: Note)
    requires crdt.Valid() && Replicas.CanApply(crdt.content, op) && op.id.clock < INT32_MAX
    modifies crdt, crdt.cells
    ensures crdt.Valid() && fresh(crdt.cells - old(crdt.cells))
    ensures crdt.Replica() == Apply(old(crdt.Replica()), op)
    ensures note == NoteOf(old(crdt.content), op) && note.op == op
    ensures Locates(crdt.rows, note)
  {
    ReportedLocates(crdt.content, op);
    crdt.ApplyRemote(op);
    crdt.IsRendered();
    var offset := crdt.VisibleOffsetOf(op.id);
    note := Note(op, offset);
  }

  function Combine(kept: seq<Operation>, applied: seq<Operation>, d: Drained): Drained {
    Drained(d.r, kept + d.left, applied + d.applied)
  }

  /** Where a scan of `ops` from `r0` stands when the engine holds `r`, `left` is what
      is still queued, and the scan is at position `it` of it. */
  ghost predicate Scanning(r0: Replica, ops: seq<Operation>, r: Replica, left: seq<Operation>, it: nat,
                           applied: seq<Operation>, notified: seq<Note>, checks: nat) {
    && it <= |left| && Tickable(left) && checks + |left| - it == |ops|
    && Pass(r0, ops) == Combine(left[..it], applied, Pass(r, left[it..]))
    && notified == Notes(r0.content, applied) && IntegrateAll(r0.content, applied) == r.content
  }

  /** The scan at position `it` of the queue. */
  lemma PassStep(left: seq<Operation>, it: nat, applied: seq<Operation>, r: Replica)
    requires it < |left|
    ensures Combine(left[..it], applied, Pass(r, left[it..])) ==
            if Replicas.CanApply(r.content, left[it])
            then Combine(left[..it], applied + [left[it]], Pass(Apply(r, left[it]), left[it + 1..]))
            else Combine(left[..it + 1], applied, Pass(r, left[it + 1..]))
  {
    var op, rest := left[it], left[it..];
    assert rest[1..] == left[it + 1..];
    if Replicas.CanApply(r.content, op) {
      var d := Pass(Apply(r, op), rest[1..]);
      assert applied + ([op] + d.applied) == applied + [op] + d.applied;
    } else {
      var d := Pass(r, rest[1..]);
      assert left[..it] + ([op] + d.left) == left[..it + 1] + d.left;
    }
  }

  lemma ScanStep(r0: Replica, ops: seq<Operation>, r: Replica, left: seq<Operation>, it: nat,
                 applied: seq<Operation>, notified: seq<Note>, checks: nat)
    requires Scanning(r0, ops, r, left, it, applied, notified, checks) && it < |left|
    ensures var op := left[it];
            if Replicas.CanApply(r.content, op)
            then Scanning(r0, ops, Apply(r, op), left[..it] + left[it + 1..], it,
                          applied + [op], notified + [NoteOf(r.content, op)], checks + 1)
            else Scanning(r0, ops, r, left, it + 1, applied, notified, checks + 1)
  {
    var op, rest := left[it], left[..it] + left[it + 1..];
    PassStep(left, it, applied, r);
    NotesStep(r0.content, applied, op);
    assert rest[..it] == left[..it] && rest[it..] == left[it + 1..];
    forall o | o in rest ensures o in left {
    }
  }

  lemma ScanStarts(r: Replica, ops: seq<Operation>)
    requires Tickable(ops)
    ensures Scanning(r, ops, r, ops, 0, [], [], 0)
  {
    var d := Pass(r, ops);
    assert [] + d.left == d.left && [] + d.applied == d.applied;
  }

  lemma ScanEnds(r0: Replica, ops: seq<Operation>, r: Replica, left: seq<Operation>,
                 applied: seq<Operation>, notified: seq<Note>, checks: nat)
    requires Scanning(r0, ops, r, left, |left|, applied, notified, checks)
    ensures Pass(r0, ops) == Drained(r, left, applied)
  {
    assert left[..|left|] == left && left[|left|..] == [];
    assert left + [] == left && applied + [] == applied;
  }

  /** The check of the inner loop, and what follows from it. */
  method ApplyIfReady(crdt: CRDTEngine, op: Operation) returns (ready: bool, notes: seq<Note>)
    requires crdt.Valid() && op.id.clock < INT32_MAX
    modifies crdt, crdt.cells
    ensures crdt.Valid() && fresh(crdt.cells - old(crdt.cells))
    ensures ready == Replicas.CanApply(old(crdt.content), op)
    ensures crdt.Replica() == if ready then Apply(old(crdt.Replica()), op) else old(crdt.Replica())
    ensures notes == if ready then [NoteOf(old(crdt.content), op)] else []
  {
    notes := [];
    ready := crdt.CanApply(op);
    if ready {
      var note := ApplyOne(crdt, op);
      notes := [note];
    }
  }

  /** The inner loop: one scan over the queue, erasing what it applies. */
  method ScanPending(crdt: CRDTEngine, pending: seq<Operation>)
    returns (left: seq<Operation>, notified: seq<Note>, checks: nat, ghost applied: seq<Operation>)
    requires crdt.Valid() && Tickable(pending)
    modifies crdt, crdt.cells
    ensures crdt.Valid() && fresh(crdt.cells - old(crdt.cells))
    ensures Pass(old(crdt.Replica()), pending) == Drained(crdt.Replica(), left, applied)
    ensures notified == Notes(old(crdt.content), applied) && IntegrateAll(old(crdt.content), applied) == crdt.content
    ensures checks == |pending|
  {
    left, notified, checks, applied := pending, [], 0, [];
    ghost var r0 := crdt.Replica();
    var it := 0;
    ScanStarts(r0, pending);
    while it < |left|
      invariant crdt.Valid() && fresh(crdt.cells - old(crdt.cells))
      invariant Scanning(r0, pending, crdt.Replica(), left, it, applied, notified, checks)
      decreases |left| - it
    {
      var op := left[it];
      ScanStep(r0, pending, crdt.Replica(), left, it, applied, notified, checks);
      var ready, notes := ApplyIfReady(crdt, op);
      checks := checks + 1;
      if ready {
        notified, applied := notified + notes, applied + [op];
        left := left[..it] + left[it + 1..];
      } else {
        it := it + 1;
      }
    }
    ScanEnds(r0, pending, crdt.Replica(), left, applied, notified, checks);
  }

  /** n + (n-1) + ... + 1 */
  function Triangle(n: nat): nat {
    if n == 0 then 0 else n + Triangle(n - 1)
  }

  lemma {:induction false} TriangleIs(n: nat)
    ensures 2 * Triangle(n) == n * (n + 1)
  {
    if n > 0 { TriangleIs(n - 1); }
  }

  lemma {:induction false} TriangleStep(m: nat, l: nat)
    requires l < m
    ensures m + Triangle(l) <= Triangle(m)
  {
    if l < m - 1 { TriangleStep(m - 1, l); }
  }

  /** Where a drain of `ops` from `r0` stands between two scans. */
  ghost predicate Draining(r0: Replica, ops: seq<Operation>, r: Replica, left: seq<Operation>, progress: bool,
                           applied: seq<Operation>, notified: seq<Note>, checks: nat) {
    && Tickable(left)
    && Drain(r0, ops) == (if progress then Combine([], applied, Drain(r, left)) else Drained(r, left, applied))
    && notified == Notes(r0.content, applied) && IntegrateAll(r0.content, applied) == r.content
    && checks + (if progress then Triangle(|left|) else 0) <= Triangle(|ops|)
  }

  lemma PassKeepsTickable(r: Replica, ops: seq<Operation>)
    requires Tickable(ops)
    ensures Tickable(Pass(r, ops).left)
  {
    PassConserves(r, ops);
    forall op | op in Pass(r, ops).left ensures op in ops {
      assert op in multiset(Pass(r, ops).left);
      assert op in multiset(ops);
    }
  }

  lemma DrainUnfolds(applied: seq<Operation>, r: Replica, ops: seq<Operation>)
    ensures var d := Pass(r, ops);
            Combine([], applied, Drain(r, ops)) ==
            if d.applied == [] then Drained(d.r, d.left, applied)
            else Combine([], applied + d.applied, Drain(d.r, d.left))
  {
    var d := Pass(r, ops);
    if d.applied != [] {
      var d' := Drain(d.r, d.left);
      Serializer.Associative(applied, d.applied, d'.applied);
    }
  }

  lemma DrainStarts(r: Replica, ops: seq<Operation>)
    requires Tickable(ops)
    ensures Draining(r, ops, r, ops, true, [], [], 0)
  {
    var d := Drain(r, ops);
    assert [] + d.left == d.left && [] + d.applied == d.applied;
  }

  /** One round of the outer loop. */
  lemma Round(r0: Replica, ops: seq<Operation>, r: Replica, left: seq<Operation>,
              applied: seq<Operation>, notified: seq<Note>, checks: nat)
    requires Draining(r0, ops, r, left, true, applied, notified, checks) && left != []
    ensures var d := Pass(r, left);
            Draining(r0, ops, d.r, d.left, d.applied != [], applied + d.applied,
                     notified + Notes(r.content, d.applied), checks + |left|)
  {
    var d := Pass(r, left);
    PassKeepsTickable(r, left);
    PassRuns(r, left);
    DrainUnfolds(applied, r, left);
    NotesConcat(r0.content, applied, d.applied);
    TriangleStep(|left|, if d.applied == [] then 0 else |d.left|);
    assert applied + [] == applied;
  }

  lemma DrainEnds(r0: Replica, ops: seq<Operation>, r: Replica, left: seq<Operation>, progress: bool,
                  applied: seq<Operation>, notified: seq<Note>, checks: nat)
    requires Draining(r0, ops, r, left, progress, applied, notified, checks) && (progress ==> left == [])
    ensures Drain(r0, ops) == Drained(r, left, applied)
  {
    assert Drain(r, []) == Drained(r, [], []);
    assert applied + [] == applied;
  }

  /** Scans until nothing moves. It ends within n(n+1)/2 checks for n operations
      (`TriangleIs`). */
  method DrainPending(crdt: CRDTEngine, pending: seq<Operation>)
    returns (left: seq<Operation>, notified: seq<Note>, checks: nat, ghost applied: seq<Operation>)
    requires crdt.Valid() && Tickable(pending)
    modifies crdt, crdt.cells
    ensures crdt.Valid() && fresh(crdt.cells - old(crdt.cells))
    ensures Drain(old(crdt.Replica()), pending) == Drained(crdt.Replica(), left, applied)
    ensures notified == Notes(old(crdt.content), applied) && IntegrateAll(old(crdt.content), applied) == crdt.content
    ensures Tickable(left)
    ensures checks <= Triangle(|pending|)
  {
    left, notified, checks, applied := pending, [], 0, [];
    ghost var r0 := crdt.Replica();
    var progress := true;
    DrainStarts(r0, pending);
    while progress && left != []
      invariant crdt.Valid() && fresh(crdt.cells - old(crdt.cells))
      invariant Draining(r0, pending, crdt.Replica(), left, progress, applied, notified, checks)
      decreases if progress then |left| + 1 else 0
    {
      var more, scanned; ghost var moved;
      Round(r0, pending, crdt.Replica(), left, applied, notified, checks);
      left, more, scanned, moved := ScanPending(crdt, left);
      notified, applied := notified + more, applied + moved;
      progress, checks := |more| > 0, checks + scanned;
    }
    DrainEnds(r0, pending, crdt.Replica(), left, progress, applied, notified, checks);
  }

  // --- the peer ---------------------------------------------------------------------

  /** The rows of a frame are those of some engine that has run. */
  ghost predicate WellFormedFrame(bytes: seq<Byte>) {
    var r := Codec.ParseState(bytes);
    r.Ok? ==> Canonical(ContentOf(r.value.rows), r.value.rows) && ClockCovers(r.value.clock, ContentOf(r.value.rows))
  }

  lemma DrainLeavesInserts(r: Replica, ops: seq<Operation>)
    requires AllInserts(ops)
    ensures AllInserts(Drain(r, ops).left)
  {
    DrainConserves(r, ops);
    forall op | op in Drain(r, ops).left ensures op in ops {
      assert op in multiset(Drain(r, ops).left);
      assert op in multiset(ops);
    }
  }

  lemma BatchNotes(p: Peer, op: Operation)
    requires Replicas.CanApply(p.replica.content, op)
    ensures var c, d := p.replica.content, Drain(Apply(p.replica, op), p.pending);
            Notes(c, AppliedBy(p, op)) == [NoteOf(c, op)] + Notes(Integrate(c, op), d.applied)
  {
    var d := Drain(Apply(p.replica, op), p.pending);
    assert ([op] + d.applied)[1..] == d.applied;
  }

  /** One buffered operation more. */
  lemma ReplayStep(start: Peer, c0: Content, buffer: seq<Operation>, i: nat)
    requires i < |buffer| && start.replica.content == c0
    requires IntegrateAll(c0, BatchOf(start, buffer[..i])) == ReceiveAll(start, buffer[..i]).replica.content
    ensures var p, op := ReceiveAll(start, buffer[..i]), buffer[i];
            && ReceiveAll(start, buffer[..i + 1]) == Receive(p, op)
            && Notes(c0, BatchOf(start, buffer[..i + 1])) ==
               Notes(c0, BatchOf(start, buffer[..i])) + Notes(p.replica.content, AppliedBy(p, op))
            && IntegrateAll(c0, BatchOf(start, buffer[..i + 1])) == Receive(p, op).replica.content
  {
    var p, op := ReceiveAll(start, buffer[..i]), buffer[i];
    assert buffer[..i + 1][..i] == buffer[..i];
    BatchRuns(p, op);
    NotesConcat(c0, BatchOf(start, buffer[..i]), AppliedBy(p, op));
  }

  /** Decodes a frame and loads it, whatever sequence it holds; the engine keeps its
      own site. */
  method LoadFrame(crdt: CRDTEngine, bytes: seq<Byte>) returns (ok: bool)
    requires crdt.Valid()
    modifies crdt
    ensures ok <==> Codec.ParseState(bytes).Ok?
    ensures !ok ==> crdt.Valid() && crdt.cells == old(crdt.cells) && crdt.Replica() == old(crdt.Replica())
    ensures ok ==> var snap := Codec.ParseState(bytes).value;
                   && crdt.Linked() && fresh(crdt.cells) && crdt.rows == snap.rows
                   && crdt.Replica() == Replica(snap.clock, ContentOf(snap.rows))
  {
    var decoded := Serializer.DecodeState(bytes);
    if decoded.Err? {
      return false;
    }
    crdt.LoadState(decoded.value);
    return true;
  }

  class Pipeline {
    const crdt: CRDTEngine
    const outgoing: MpscQueue<Operation>
    const incoming: MpscQueue<Operation>
    var syncing: bool
    var syncBuffer: seq<Operation>
    var pendingOps: seq<Operation>

    ghost predicate Valid()
      reads this, crdt, crdt.cells, incoming
    {
      crdt.Valid() && QueuesValid()
    }

    ghost predicate QueuesValid()
      reads this, incoming
    {
      && incoming != outgoing
      && AllInserts(pendingOps) && Tickable(pendingOps)
      && Tickable(syncBuffer) && Tickable(incoming.q)
    }

    ghost function State(): Peer
      reads this, crdt
    {
      Peer(crdt.Replica(), pendingOps)
    }

    constructor (crdt: CRDTEngine)
      requires crdt.Valid()
      ensures Valid() && this.crdt == crdt && !syncing && syncBuffer == [] && pendingOps == []
      ensures fresh(incoming) && fresh(outgoing) && incoming.q == outgoing.q == []
    {
      this.crdt := crdt;
      outgoing := new MpscQueue();
      incoming := new MpscQueue();
      syncing, syncBuffer, pendingOps := false, [], [];
    }

    // --- local edits ----------------------------------------------------------------

    method LocalInsert(pos: int, c: Byte) returns (op: Operation)
      requires Valid() && crdt.clock < INT32_MAX
      modifies crdt, crdt.cells, outgoing
      ensures Valid() && fresh(crdt.cells - old(crdt.cells))
      ensures op == LocalInsertOp(old(crdt.clock), crdt.siteID, old(crdt.rows), pos, c)
      ensures State() == Peer(Replica(old(crdt.clock) + 1, Integrate(old(crdt.content), op)), old(pendingOps))
      ensures outgoing.q == old(outgoing.q) + [op]
      ensures op == Operation(INSERT, CharID(old(crdt.clock) + 1, crdt.siteID), op.left, c)
      ensures if 0 < pos <= |Text(old(crdt.rows))|
              then op.left in old(crdt.content) && !old(crdt.content)[op.left].dead
                   && Offset(old(crdt.rows), op.left) == pos - 1
              else op.left == SENTINEL_ID
      ensures var text := Text(old(crdt.rows));
              Text(crdt.rows) == if 0 <= pos <= |text| then text[..pos] + [c] + text[pos..] else [c] + text
    {
      op := crdt.LocalInsert(pos, c);
      outgoing.Push(op);
    }

    /** Nothing is sent when the position holds no character. */
    method LocalDelete(pos: int) returns (r: Result<Operation>)
      requires Valid() && crdt.clock < INT32_MAX
      modifies crdt, crdt.cells, outgoing
      ensures Valid() && crdt.cells == old(crdt.cells) && crdt.clock == old(crdt.clock) + 1
      ensures r.Ok? <==> 0 <= pos < |Text(old(crdt.rows))|
      ensures r.Err? ==> crdt.content == old(crdt.content) && outgoing.q == old(outgoing.q)
      ensures r.Ok? ==>
                && r.value == Operation(DELETE, VisibleId(old(crdt.rows), pos), SENTINEL_ID, 0)
                && Offset(old(crdt.rows), r.value.id) == pos
                && crdt.content == Integrate(old(crdt.content), r.value)
                && outgoing.q == old(outgoing.q) + [r.value]
                && Text(crdt.rows) == Text(old(crdt.rows))[..pos] + Text(old(crdt.rows))[pos + 1..]
    {
      r := crdt.LocalDelete(pos);
      if r.Ok? {
        outgoing.Push(r.value);
      }
    }

    // --- remote operations ------------------------------------------------------------

    /** The part of a step that runs while no snapshot transfer is under way. */
    method Deliver(op: Operation) returns (toNotify: seq<Note>)
      requires Valid() && op.id.clock < INT32_MAX
      modifies this`pendingOps, crdt, crdt.cells
      ensures Valid() && fresh(crdt.cells - old(crdt.cells))
      ensures State() == Receive(old(State()), op)
      ensures toNotify == Notes(old(crdt.content), AppliedBy(old(State()), op))
    {
      var ready := crdt.CanApply(op);
      if !ready {
        pendingOps := pendingOps + [op];
        return [];
      }
      toNotify := ApplyAndDrain(op);
    }

    method ApplyAndDrain(op: Operation) returns (toNotify: seq<Note>)
      requires Valid() && op.id.clock < INT32_MAX && Replicas.CanApply(crdt.content, op)
      modifies this`pendingOps, crdt, crdt.cells
      ensures Valid() && fresh(crdt.cells - old(crdt.cells))
      ensures State() == Receive(old(State()), op)
      ensures toNotify == Notes(old(crdt.content), AppliedBy(old(State()), op))
    {
      BatchNotes(State(), op);
      var note := ApplyOne(crdt, op);
      var drained := DrainQueue();
      toNotify := [note] + drained;
    }

    method DrainQueue() returns (notified: seq<Note>)
      requires Valid()
      modifies this`pendingOps, crdt, crdt.cells
      ensures Valid() && fresh(crdt.cells - old(crdt.cells))
      ensures State() == DrainPeer(old(State()))
      ensures notified == Notes(old(crdt.content), Drain(old(crdt.Replica()), old(pendingOps)).applied)
    {
      DrainLeavesInserts(crdt.Replica(), pendingOps);
      var left, checks; ghost var applied;
      left, notified, checks, applied := DrainPending(crdt, pendingOps);
      pendingOps := left;
    }

    /** One turn of the consumer loop: during a transfer the operation is buffered. */
    method CrdtStep() returns (toNotify: seq<Note>)
      requires Valid() && incoming.q != []
      modifies this, crdt, crdt.cells, incoming
      ensures Valid() && fresh(crdt.cells - old(crdt.cells)) && syncing == old(syncing)
      ensures incoming.q == old(incoming.q)[1..]
      ensures old(syncing) ==>
                && syncBuffer == old(syncBuffer) + [old(incoming.q)[0]]
                && State() == old(State()) && toNotify == []
      ensures !old(syncing) ==>
                && syncBuffer == old(syncBuffer)
                && State() == Receive(old(State()), old(incoming.q)[0])
                && toNotify == Notes(old(crdt.content), AppliedBy(old(State()), old(incoming.q)[0]))
    {
      assert incoming.q[0] in incoming.q;
      var popped := incoming.Pop(false);
      var op := popped.value;
      if syncing {
        syncBuffer := syncBuffer + [op];
        return [];
      }
      toNotify := Deliver(op);
    }

    // --- snapshot transfer --------------------------------------------------------------

    method SerializeState() returns (bytes: seq<Byte>)
      requires Valid()
      ensures bytes == Codec.EncodeState(Codec.Snapshot(crdt.siteID, crdt.clock, Render(crdt.content)))
      ensures Codec.ParseState(bytes) == Ok(Codec.Snapshot(crdt.siteID, crdt.clock, Render(crdt.content)))
         <==> 12 + 18 * |Render(crdt.content)| - 18 < 0x1_0000_0000
      ensures 12 + 18 * |Render(crdt.content)| - 18 < 0x1_0000_0000 ==> WellFormedFrame(bytes)
    {
      crdt.IsRendered();
      bytes := Serializer.EncodeState(crdt);
      SnapshotTransfers(crdt.siteID, crdt.clock, crdt.content);
    }

    method BeginSync()
      requires Valid()
      modifies this`syncing, this`syncBuffer
      ensures Valid() && syncing && syncBuffer == []
    {
      syncing := true;
      syncBuffer := [];
    }

    /** The transfer is over: a state has been consumed, or every peer failed. */
    method EndSync()
      requires Valid()
      modifies this`syncing, this`syncBuffer
      ensures Valid() && !syncing && syncBuffer == []
    {
      syncing := false;
      syncBuffer := [];
    }

    /** A frame has arrived: it replaces the engine's state, the buffer is replayed in
        arrival order, and the queue is drained. A malformed frame changes nothing. */
    method ConsumeState(bytes: seq<Byte>) returns (r: Result<seq<Note>>)
      requires Valid() && WellFormedFrame(bytes)
      modifies this, crdt, crdt.cells
      ensures Valid() && fresh(crdt.cells - old(crdt.cells))
      ensures r.Ok? <==> Codec.ParseState(bytes).Ok?
      ensures r.Err? ==> State() == old(State()) && syncing == old(syncing) && syncBuffer == old(syncBuffer)
      ensures r.Ok? ==>
                var snap := Codec.ParseState(bytes).value;
                var start := Peer(Replica(snap.clock, ContentOf(snap.rows)), old(pendingOps));
                && State() == Replay(start, old(syncBuffer)) && !syncing && syncBuffer == []
                && r.value == Notes(start.replica.content, ReplayBatch(start, old(syncBuffer)))
    {
      var loaded := LoadFrame(crdt, bytes);
      if !loaded {
        return Err;
      }
      var toNotify := ReplayBuffer();
      EndSync();
      return Ok(toNotify);
    }

    method ReplayBuffer() returns (toNotify: seq<Note>)
      requires Valid()
      modifies this`pendingOps, crdt, crdt.cells
      ensures Valid() && fresh(crdt.cells - old(crdt.cells))
      ensures State() == Replay(old(State()), syncBuffer)
      ensures toNotify == Notes(old(crdt.content), ReplayBatch(old(State()), syncBuffer))
    {
      ghost var start, c0 := State(), crdt.content;
      toNotify := DeliverBuffer();
      NotesConcat(c0, BatchOf(start, syncBuffer), Drain(crdt.Replica(), pendingOps).applied);
      var drained := DrainQueue();
      toNotify := toNotify + drained;
    }

    method DeliverBuffer() returns (toNotify: seq<Note>)
      requires Valid()
      modifies this`pendingOps, crdt, crdt.cells
      ensures Valid() && fresh(crdt.cells - old(crdt.cells))
      ensures State() == ReceiveAll(old(State()), syncBuffer)
      ensures toNotify == Notes(old(crdt.content), BatchOf(old(State()), syncBuffer))
      ensures IntegrateAll(old(crdt.content), BatchOf(old(State()), syncBuffer)) == crdt.content
    {
      ghost var start, c0 := State(), crdt.content;
      toNotify := [];
      var i := 0;
      while i < |syncBuffer|
        invariant i <= |syncBuffer| && crdt.Valid() && QueuesValid()
        invariant fresh(crdt.cells - old(crdt.cells))
        invariant State() == ReceiveAll(start, syncBuffer[..i])
        invariant toNotify == Notes(c0, BatchOf(start, syncBuffer[..i]))
        invariant IntegrateAll(c0, BatchOf(start, syncBuffer[..i])) == crdt.content
      {
        ReplayStep(start, c0, syncBuffer, i);
        var more := Deliver(syncBuffer[i]);
        toNotify := toNotify + more;
        i := i + 1;
      }
      assert syncBuffer[..i] == syncBuffer;
    }
  }
}
