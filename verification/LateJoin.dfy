/** A peer that starts from another's snapshot: the transferred frame, the load,
    and the replay of what arrived meanwhile. */
module LateJoin {
  import opened Types
  import opened PathOrder
  import opened CanonicalOrder
  import opened PreOrder
  import opened Replicas
  import opened Delivery
  import opened Convergence
  import opened Engine
  import Codec

  /** The operations a content stands for. */
  function OpsOf(c: Content): set<Operation> {
    (set id | id in c :: InsertOp(id, c[id])) + (set id | id in c && c[id].dead :: DeleteOp(id))
  }

  /** What the snapshot consumer does after the load: every buffered operation in
      arrival order, then a final drain. */
  function Replay(p: Peer, buffer: seq<Operation>): Peer {
    DrainPeer(ReceiveAll(p, buffer))
  }

  /** A content and a queue of inserts account for their own operations. */
  lemma SnapshotCarries(c: Content, pending: seq<Operation>)
    requires Rooted(c) && AllInserts(pending)
    ensures Carries(OpsOf(c) + SetOf(pending), c, pending)
    ensures DeletesLanded(OpsOf(c) + SetOf(pending), c)
  {
    forall id | id in c && c[id].dead ensures Deletes(OpsOf(c) + SetOf(pending), id) {
      assert DeleteOp(id) in OpsOf(c);
    }
  }

  /** Every operation the joiner has at hand after a load. */
  function Sources(c: Content, pending: seq<Operation>, buffer: seq<Operation>): set<Operation> {
    OpsOf(c) + SetOf(pending) + SetOf(buffer)
  }

  /** What it keeps of them. */
  function KeptAfter(snap: Replica, pending: seq<Operation>, buffer: seq<Operation>): set<Operation> {
    OpsOf(snap.content) + SetOf(pending) + Kept(Peer(snap, pending), buffer)
  }

  /** A snapshot, the joiner's queue and its buffer that belong to one history. */
  ghost predicate Joinable(c: Content, pending: seq<Operation>, buffer: seq<Operation>) {
    Rooted(c) && AllInserts(pending) && Consistent(Sources(c, pending, buffer))
  }

  /** After a sync the joiner stands for what it kept, and nothing of the snapshot is lost. */
  lemma SyncAccounts(snap: Replica, pending: seq<Operation>, buffer: seq<Operation>)
    requires Joinable(snap.content, pending, buffer)
    ensures var q := Replay(Peer(snap, pending), buffer);
            && Accounts(KeptAfter(snap, pending, buffer), q)
            && Grows(snap.content, q.replica.content) && snap.clock <= q.replica.clock
  {
    var s, p := OpsOf(snap.content) + SetOf(pending), Peer(snap, pending);
    var q := ReceiveAll(p, buffer);
    SnapshotCarries(snap.content, pending);
    ReceiveAllKeeps(s, p, buffer);
    KeptOrDropped(p, buffer);
    ConsistentSubset(s + Kept(p, buffer), s + SetOf(buffer));
    DrainPeerCarries(s + Kept(p, buffer), q);
    DrainGrows(q.replica, q.pending);
    GrowsTransitive(snap.content, q.replica.content, DrainPeer(q).replica.content);
  }

  /** The joiner holds exactly what the snapshot, its old queue and the buffer make
      ready, for any buffer order and any overlap with the snapshot. */
  lemma SyncExplained(snap: Replica, pending: seq<Operation>, buffer: seq<Operation>)
    requires Joinable(snap.content, pending, buffer)
    ensures Explains(Sources(snap.content, pending, buffer), Replay(Peer(snap, pending), buffer))
  {
    SyncAccounts(snap, pending, buffer);
    KeptOrDropped(Peer(snap, pending), buffer);
    ExplainsMore(KeptAfter(snap, pending, buffer), Sources(snap.content, pending, buffer),
                 Replay(Peer(snap, pending), buffer));
  }

  // --- which buffered deletes meet their target ------------------------------------

  /** Nothing is drained until an operation applies: before that the queue of an
      unsettled peer just grows. */
  lemma {:induction false} IdleReplay(p: Peer, log: seq<Operation>)
    requires Settled(p.replica.content, log)
    ensures ReceiveAll(p, log) == Peer(p.replica, p.pending + log)
  {
    if log == [] {
      assert p.pending + [] == p.pending;
    } else {
      var n := |log| - 1;
      assert log == log[..n] + [log[n]];
      IdleReplay(p, log[..n]);
    }
  }

  /** From the first applied operation on, the peer is settled after each. */
  lemma {:induction false} WokenSettles(p: Peer, log: seq<Operation>)
    requires !Settled(p.replica.content, log)
    ensures var q := ReceiveAll(p, log); Settled(q.replica.content, q.pending)
  {
    var n := |log| - 1;
    var rest, op, q := log[..n], log[n], ReceiveAll(p, log[..n]);
    assert log == rest + [op];
    if CanApply(q.replica.content, op) {
      DrainSettles(Apply(q.replica, op), q.pending);
    } else {
      if Settled(p.replica.content, rest) {
        IdleReplay(p, rest);
      }
      WokenSettles(p, rest);
    }
  }

  /** `id` is integrated once `before` has been replayed on top of a snapshot. Until
      an operation of the buffer applies, old pending operations stay where they are. */
  ghost predicate Present(c: Content, pending: seq<Operation>, before: seq<Operation>, id: CharID) {
    && id != SENTINEL_ID
    && if Settled(c, before) then id in c else Ready(Sources(c, pending, before), id)
  }

  lemma PresentIs(snap: Replica, pending: seq<Operation>, before: seq<Operation>, id: CharID)
    requires Joinable(snap.content, pending, before)
    ensures id in ReceiveAll(Peer(snap, pending), before).replica.content
       <==> Present(snap.content, pending, before, id)
  {
    var c, p := snap.content, Peer(snap, pending);
    if Settled(c, before) {
      IdleReplay(p, before);
    } else {
      var s, q := OpsOf(c) + SetOf(pending), ReceiveAll(p, before);
      SnapshotCarries(c, pending);
      ReceiveAllKeeps(s, p, before);
      WokenSettles(p, before);
      KeptOrDropped(p, before);
      ExplainsMore(s + Kept(p, before), Sources(c, pending, before), q);
      ExactReadiness(Sources(c, pending, before), q);
      assert Known(q.replica.content, id) <==> Ready(Sources(c, pending, before), id);
    }
  }

  /** The delete at position `k` of the buffer finds its target, or does not. */
  ghost predicate MeetsAt(c: Content, pending: seq<Operation>, buffer: seq<Operation>, k: nat)
    requires k < |buffer|
  {
    buffer[k].kind == DELETE && Present(c, pending, buffer[..k], buffer[k].id)
  }

  ghost predicate MissesAt(c: Content, pending: seq<Operation>, buffer: seq<Operation>, k: nat)
    requires k < |buffer|
  {
    buffer[k].kind == DELETE && !Present(c, pending, buffer[..k], buffer[k].id)
  }

  /** Some buffered delete of `id` finds it. */
  ghost predicate Met(c: Content, pending: seq<Operation>, buffer: seq<Operation>, id: CharID) {
    exists k :: 0 <= k < |buffer| && MeetsAt(c, pending, buffer, k) && buffer[k].id == id
  }

  ghost predicate FindsTarget(c: Content, pending: seq<Operation>, buffer: seq<Operation>, op: Operation) {
    exists k :: 0 <= k < |buffer| && MeetsAt(c, pending, buffer, k) && buffer[k] == op
  }

  ghost predicate MissesTarget(c: Content, pending: seq<Operation>, buffer: seq<Operation>, op: Operation) {
    exists k :: 0 <= k < |buffer| && MissesAt(c, pending, buffer, k) && buffer[k] == op
  }

  lemma FateAt(c: Content, pending: seq<Operation>, buffer: seq<Operation>, n: nat, k: nat)
    requires k < n <= |buffer|
    ensures MeetsAt(c, pending, buffer[..n], k) == MeetsAt(c, pending, buffer, k)
    ensures MissesAt(c, pending, buffer[..n], k) == MissesAt(c, pending, buffer, k)
  {
    assert buffer[..n][..k] == buffer[..k];
  }

  lemma FindsStep(c: Content, pending: seq<Operation>, buffer: seq<Operation>, op: Operation)
    requires buffer != []
    ensures var n := |buffer| - 1;
            FindsTarget(c, pending, buffer, op) <==>
            FindsTarget(c, pending, buffer[..n], op) || (MeetsAt(c, pending, buffer, n) && buffer[n] == op)
  {
    var n := |buffer| - 1;
    forall k | 0 <= k < n ensures MeetsAt(c, pending, buffer[..n], k) == MeetsAt(c, pending, buffer, k) {
      FateAt(c, pending, buffer, n, k);
    }
  }

  lemma MissesStep(c: Content, pending: seq<Operation>, buffer: seq<Operation>, op: Operation)
    requires buffer != []
    ensures var n := |buffer| - 1;
            MissesTarget(c, pending, buffer, op) <==>
            MissesTarget(c, pending, buffer[..n], op) || (MissesAt(c, pending, buffer, n) && buffer[n] == op)
  {
    var n := |buffer| - 1;
    forall k | 0 <= k < n ensures MissesAt(c, pending, buffer[..n], k) == MissesAt(c, pending, buffer, k) {
      FateAt(c, pending, buffer, n, k);
    }
  }

  lemma JoinablePrefix(c: Content, pending: seq<Operation>, buffer: seq<Operation>, n: nat)
    requires Joinable(c, pending, buffer) && n <= |buffer|
    ensures Joinable(c, pending, buffer[..n])
  {
    ConsistentSubset(Sources(c, pending, buffer[..n]), Sources(c, pending, buffer));
  }

  /** Kept and dropped deletes, told from the operations alone. */
  lemma {:induction false} FatesOfDeletes(snap: Replica, pending: seq<Operation>, buffer: seq<Operation>, op: Operation)
    requires Joinable(snap.content, pending, buffer) && op.kind == DELETE
    ensures op in Kept(Peer(snap, pending), buffer) <==> FindsTarget(snap.content, pending, buffer, op)
    ensures op in Dropped(Peer(snap, pending), buffer) <==> MissesTarget(snap.content, pending, buffer, op)
  {
    if buffer != [] {
      var n := |buffer| - 1;
      JoinablePrefix(snap.content, pending, buffer, n);
      FatesOfDeletes(snap, pending, buffer[..n], op);
      PresentIs(snap, pending, buffer[..n], buffer[n].id);
      FindsStep(snap.content, pending, buffer, op);
      MissesStep(snap.content, pending, buffer, op);
    }
  }

  lemma KeptDeletes(snap: Replica, pending: seq<Operation>, buffer: seq<Operation>, id: CharID)
    requires Joinable(snap.content, pending, buffer)
    ensures Deletes(Kept(Peer(snap, pending), buffer), id) <==> Met(snap.content, pending, buffer, id)
  {
    var kept := Kept(Peer(snap, pending), buffer);
    if Deletes(kept, id) {
      var op :| op in kept && op.kind == DELETE && op.id == id;
      FatesOfDeletes(snap, pending, buffer, op);
    }
    if Met(snap.content, pending, buffer, id) {
      var k :| 0 <= k < |buffer| && MeetsAt(snap.content, pending, buffer, k) && buffer[k].id == id;
      FatesOfDeletes(snap, pending, buffer, buffer[k]);
    }
  }

  // --- the state after a sync, in closed form --------------------------------------

  predicate DeadIn(c: Content, id: CharID) {
    id in c && c[id].dead
  }

  lemma SyncReady(snap: Replica, pending: seq<Operation>, buffer: seq<Operation>, id: CharID)
    requires Joinable(snap.content, pending, buffer)
    ensures var q := Replay(Peer(snap, pending), buffer).replica.content;
            id in q <==> id != SENTINEL_ID && Ready(Sources(snap.content, pending, buffer), id)
  {
    var q := Replay(Peer(snap, pending), buffer);
    SyncExplained(snap, pending, buffer);
    ExactReadiness(Sources(snap.content, pending, buffer), q);
    assert Known(q.replica.content, id) <==> Ready(Sources(snap.content, pending, buffer), id);
  }

  lemma KeptAfterDeletes(snap: Replica, pending: seq<Operation>, buffer: seq<Operation>, id: CharID)
    requires AllInserts(pending)
    ensures Deletes(KeptAfter(snap, pending, buffer), id)
       <==> DeadIn(snap.content, id) || Deletes(Kept(Peer(snap, pending), buffer), id)
  {
    var s := KeptAfter(snap, pending, buffer);
    if Deletes(s, id) {
      var d :| d in s && d.kind == DELETE && d.id == id;
    }
    if DeadIn(snap.content, id) {
      assert DeleteOp(id) in s;
    }
    if Deletes(Kept(Peer(snap, pending), buffer), id) {
      var d :| d in Kept(Peer(snap, pending), buffer) && d.kind == DELETE && d.id == id;
      assert d in s;
    }
  }

  lemma AccountedDeletes(s: set<Operation>, p: Peer, id: CharID)
    requires Accounts(s, p)
    ensures DeadIn(p.replica.content, id) <==> Deletes(s, id)
  {
  }

  /** What is ready is integrated, and dead exactly when the snapshot or a buffered
      delete that met its target says so. */
  lemma SyncOutcome(snap: Replica, pending: seq<Operation>, buffer: seq<Operation>, id: CharID)
    requires Joinable(snap.content, pending, buffer)
    ensures var q := Replay(Peer(snap, pending), buffer).replica.content;
            && (id in q <==> id != SENTINEL_ID && Ready(Sources(snap.content, pending, buffer), id))
            && (DeadIn(q, id) <==> DeadIn(snap.content, id) || Met(snap.content, pending, buffer, id))
  {
    SyncReady(snap, pending, buffer, id);
    SyncAccounts(snap, pending, buffer);
    AccountedDeletes(KeptAfter(snap, pending, buffer), Replay(Peer(snap, pending), buffer), id);
    KeptAfterDeletes(snap, pending, buffer, id);
    KeptDeletes(snap, pending, buffer, id);
  }

  // --- what a load loses --------------------------------------------------------------

  /** Of what the joiner had, every insert is brought back with its whole chain, and
      every tombstone by the snapshot or by a buffered delete that meets its target. */
  ghost predicate BringsBack(had: Content, c: Content, pending: seq<Operation>, buffer: seq<Operation>) {
    forall id :: id in had ==>
      && InsertOp(id, had[id]) in Sources(c, pending, buffer) && Ready(Sources(c, pending, buffer), id)
      && (had[id].dead ==> DeadIn(c, id) || Met(c, pending, buffer, id))
  }

  /** A load replaces the joiner's state. It loses nothing the joiner had, neither a
      character nor its value, its left neighbour or its tombstone, exactly when
      snapshot, queue and buffer bring all of it back. */
  lemma LoadLosesNothingIff(had: Content, snap: Replica, pending: seq<Operation>, buffer: seq<Operation>)
    requires SENTINEL_ID !in had && Joinable(snap.content, pending, buffer)
    ensures Grows(had, Replay(Peer(snap, pending), buffer).replica.content)
       <==> BringsBack(had, snap.content, pending, buffer)
  {
    var s, q := Sources(snap.content, pending, buffer), Replay(Peer(snap, pending), buffer).replica.content;
    SyncExplained(snap, pending, buffer);
    forall id | id in had
      ensures (id in q && q[id].left == had[id].left && q[id].value == had[id].value && (had[id].dead ==> q[id].dead))
         <==> (&& InsertOp(id, had[id]) in s && Ready(s, id)
               && (had[id].dead ==> DeadIn(snap.content, id) || Met(snap.content, pending, buffer, id)))
    {
      SyncOutcome(snap, pending, buffer, id);
      assert id in q ==> InsertOp(id, q[id]) in s;
    }
  }

  /** A snapshot that contains all that was integrated brings it back, whatever waits. */
  lemma DominatingBringsBack(had: Content, snap: Replica, pending: seq<Operation>, buffer: seq<Operation>)
    requires SENTINEL_ID !in had && Joinable(snap.content, pending, buffer) && Grows(had, snap.content)
    ensures BringsBack(had, snap.content, pending, buffer)
  {
    SyncAccounts(snap, pending, buffer);
    GrowsTransitive(had, snap.content, Replay(Peer(snap, pending), buffer).replica.content);
    LoadLosesNothingIff(had, snap, pending, buffer);
  }

  /** A load can lose a tombstone: from a server that has the character but not yet
      its delete, the character comes back. */
  lemma StaleSnapshotRevives(clock: int, c: Content, id: CharID)
    requires Joinable(c, [], []) && id in c && !c[id].dead
    ensures !Grows(Integrate(c, DeleteOp(id)), Replay(Peer(Replica(clock, c), []), []).replica.content)
  {
    IntegrateGrows(c, DeleteOp(id));
    LoadLosesNothingIff(Integrate(c, DeleteOp(id)), Replica(clock, c), [], []);
  }

  lemma DirectDeleteLands(r: Replica, op: Operation)
    requires op.kind == INSERT && op.left in r.content && !Known(r.content, op.id)
    ensures DeadIn(ReceiveAll(Peer(r, []), [op, DeleteOp(op.id)]).replica.content, op.id)
  {
    var del, first := DeleteOp(op.id), Receive(Peer(r, []), op);
    assert [op, del][..1] == [op] && [op][..0] == [];
    assert ReceiveAll(Peer(r, []), [op]) == first;
    assert first.replica == Apply(r, op) && first.pending == [];
    assert Receive(first, del).replica == Apply(first.replica, del);
  }

  /** Nothing is drained between the load and the replay. So a buffered delete of a
      character that waits in the queue is dropped, although the snapshot has the left
      neighbour the character was waiting for; received directly, both take effect. */
  lemma WaitingTargetIsMissed(snap: Replica, op: Operation)
    requires op.kind == INSERT && op.left in snap.content && !Known(snap.content, op.id)
    requires Joinable(snap.content, [op], [DeleteOp(op.id)])
    ensures var synced := Replay(Peer(snap, [op]), [DeleteOp(op.id)]).replica.content;
            op.id in synced && !DeadIn(synced, op.id)
    ensures DeadIn(ReceiveAll(Peer(snap, []), [op, DeleteOp(op.id)]).replica.content, op.id)
  {
    var buffer := [DeleteOp(op.id)];
    var q := Replay(Peer(snap, [op]), buffer);
    SyncOutcome(snap, [op], buffer, op.id);
    assert buffer[..0] == [] && !MeetsAt(snap.content, [op], buffer, 0);
    SyncAccounts(snap, [op], buffer);
    assert op in KeptAfter(snap, [op], buffer) && CanApply(q.replica.content, op);
    DirectDeleteLands(snap, op);
  }

  /** The encoded state of a replica arrives as the same replica, exactly when its
      payload fits the length field. */
  lemma SnapshotTransfers(site: UInt32, clock: Int32, c: Content)
    requires Rooted(c)
    ensures var snap := Codec.Snapshot(site, clock, Render(c));
            && (Codec.ParseState(Codec.EncodeState(snap)) == Ok(snap) <==> 12 + 18 * |Render(c)| - 18 < 0x1_0000_0000)
            && Canonical(ContentOf(Render(c)), Render(c)) && ContentOf(Render(c)) == c
  {
    var rows := Render(c);
    RenderCanonical(c);
    ContentUnique(c, rows);
    forall i | 0 < i < |rows| ensures rows[i].id != SENTINEL_ID {
      assert rows[i].id in c;
    }
    var s := Codec.Snapshot(site, clock, rows);
    Codec.StateRoundTrip(s, []);
    assert Codec.EncodeState(s) + [] == Codec.EncodeState(s);
  }

  /** Each buffered delete meets its target. */
  ghost predicate AllMeet(c: Content, pending: seq<Operation>, buffer: seq<Operation>) {
    forall k :: 0 <= k < |buffer| && buffer[k].kind == DELETE ==> MeetsAt(c, pending, buffer, k)
  }

  lemma AllMeetDeletes(c: Content, pending: seq<Operation>, buffer: seq<Operation>, id: CharID)
    requires AllInserts(pending) && AllMeet(c, pending, buffer)
    ensures DeadIn(c, id) || Met(c, pending, buffer, id) <==> Deletes(Sources(c, pending, buffer), id)
  {
    var s := Sources(c, pending, buffer);
    if DeadIn(c, id) {
      assert DeleteOp(id) in s;
    }
    if Met(c, pending, buffer, id) {
      var k :| 0 <= k < |buffer| && MeetsAt(c, pending, buffer, k) && buffer[k].id == id;
      assert buffer[k] in s;
    }
    if Deletes(s, id) {
      var d :| d in s && d.kind == DELETE && d.id == id;
      if d in buffer {
        var k :| 0 <= k < |buffer| && buffer[k] == d;
        assert MeetsAt(c, pending, buffer, k);
      }
    }
  }

  /** A joiner agrees with a peer that received the same operations directly, in any
      order of its own: on the inserts always, and on the whole sequence exactly when
      the same deletes took effect. */
  lemma SyncAgreesIff(snap: Replica, pending: seq<Operation>, buffer: seq<Operation>, log: seq<Operation>)
    requires Joinable(snap.content, pending, buffer) && SetOf(log) == Sources(snap.content, pending, buffer)
    ensures var joined, direct := Replay(Peer(snap, pending), buffer), ReceiveAll(NEWCOMER, log);
            && SameInserts(joined.replica.content, direct.replica.content)
            && (forall op :: op in joined.pending <==> op in direct.pending)
            && (Render(joined.replica.content) == Render(direct.replica.content) <==>
                forall id :: id != SENTINEL_ID ==>
                  (Landed(log, id) <==> DeadIn(snap.content, id) || Met(snap.content, pending, buffer, id)))
  {
    var joined, direct := Replay(Peer(snap, pending), buffer), ReceiveAll(NEWCOMER, log);
    var c, c' := joined.replica.content, direct.replica.content;
    SyncExplained(snap, pending, buffer);
    ProcessedLog(log);
    ExplainedAlike(SetOf(log), joined, direct);
    RenderInjective(c, c');
    forall id | id != SENTINEL_ID
      ensures DeadIn(c, id) <==> DeadIn(snap.content, id) || Met(snap.content, pending, buffer, id)
      ensures DeadIn(c', id) <==> Landed(log, id)
    {
      SyncOutcome(snap, pending, buffer, id);
      LandedIsDead(log, direct, id);
    }
    SameDeadSame(c, c');
  }

  lemma LandedIsDead(log: seq<Operation>, p: Peer, id: CharID)
    requires Consistent(SetOf(log)) && Outcome(log, p) && id != SENTINEL_ID
    ensures DeadIn(p.replica.content, id) <==> Landed(log, id)
  {
    ExactReadiness(SetOf(log), p);
    if Landed(log, id) {
      LandedIsReady(log, id);
      assert Known(p.replica.content, id);
    }
  }

  lemma SameDeadSame(c: Content, c': Content)
    requires SameInserts(c, c') && SENTINEL_ID !in c
    ensures c == c' <==> forall id :: id != SENTINEL_ID ==> (DeadIn(c, id) <==> DeadIn(c', id))
  {
    if forall id :: id != SENTINEL_ID ==> (DeadIn(c, id) <==> DeadIn(c', id)) {
      forall id | id in c ensures c[id] == c'[id] {
        assert DeadIn(c, id) <==> DeadIn(c', id);
      }
    }
  }

  /** Late join refines direct delivery: a joiner that decodes a server's frame, loads
      it and replays its buffer agrees with a peer that received all those operations
      directly; on the whole sequence, when no delete came before its target. */
  lemma LateJoinRefinesDelivery(site: UInt32, clock: Int32, server: Content,
                                pending: seq<Operation>, buffer: seq<Operation>, log: seq<Operation>)
    requires Joinable(server, pending, buffer) && 12 + 18 * |Render(server)| - 18 < 0x1_0000_0000
    requires SetOf(log) == Sources(server, pending, buffer)
    ensures var frame := Codec.EncodeState(Codec.Snapshot(site, clock, Render(server)));
            && Codec.ParseState(frame).Ok?
            && var snap := Codec.ParseState(frame).value;
               var start := Peer(Replica(snap.clock, ContentOf(snap.rows)), pending);
               var joined, direct := Replay(start, buffer), ReceiveAll(NEWCOMER, log);
               && SameInserts(joined.replica.content, direct.replica.content)
               && (forall op :: op in joined.pending <==> op in direct.pending)
               && (AllMeet(server, pending, buffer) && DeletesInOrder(log) ==>
                     Render(joined.replica.content) == Render(direct.replica.content))
  {
    SnapshotTransfers(site, clock, server);
    SyncAgreesIff(Replica(clock, server), pending, buffer, log);
    if AllMeet(server, pending, buffer) && DeletesInOrder(log) {
      forall id ensures Landed(log, id) <==> DeadIn(server, id) || Met(server, pending, buffer, id) {
        AllMeetDeletes(server, pending, buffer, id);
        InOrderLanded(log, id);
      }
    }
  }
}
