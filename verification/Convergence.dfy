/** What a peer ends with after any sequence of received operations, and when two
    peers that received the same operations agree. */
module Convergence {
  import opened Types
  import opened PathOrder
  import opened PreOrder
  import opened Replicas
  import opened Delivery

  // --- draining inserts revives and kills nothing --------------------------------

  /** Old characters keep their tombstone bit; new ones are visible. */
  predicate KeepsTombstones(c: Content, c': Content) {
    forall id :: id in c' ==> c'[id].dead == (id in c && c[id].dead)
  }

  predicate AllInserts(ops: seq<Operation>) {
    forall op :: op in ops ==> op.kind == INSERT
  }

  lemma {:induction false} PassKeepsTombstones(r: Replica, ops: seq<Operation>)
    requires Rooted(r.content) && AllInserts(ops)
    ensures KeepsTombstones(r.content, Pass(r, ops).r.content) && AllInserts(Pass(r, ops).left)
    decreases |ops|
  {
    if ops != [] {
      assert ops == [ops[0]] + ops[1..];
      if CanApply(r.content, ops[0]) {
        IntegrateGrows(r.content, ops[0]);
        PassGrows(Apply(r, ops[0]), ops[1..]);
        PassKeepsTombstones(Apply(r, ops[0]), ops[1..]);
      } else {
        PassKeepsTombstones(r, ops[1..]);
      }
    }
  }

  lemma {:induction false} DrainKeepsTombstones(r: Replica, ops: seq<Operation>)
    requires Rooted(r.content) && AllInserts(ops)
    ensures KeepsTombstones(r.content, Drain(r, ops).r.content)
    decreases |ops|
  {
    var d := Pass(r, ops);
    PassKeepsTombstones(r, ops);
    PassGrows(r, ops);
    if d.applied != [] {
      DrainKeepsTombstones(d.r, d.left);
      DrainGrows(d.r, d.left);
    }
  }

  // --- a processed log -------------------------------------------------------------

  /** The delete at position `k` met its target: the whole chain of `id` had been
      received before. */
  ghost predicate LandsAt(log: seq<Operation>, k: nat, id: CharID)
    requires k < |log|
  {
    log[k].kind == DELETE && log[k].id == id && Ready(SetOf(log[..k]), id)
  }

  ghost predicate Landed(log: seq<Operation>, id: CharID) {
    exists k :: 0 <= k < |log| && LandsAt(log, k, id)
  }

  lemma LandedStep(log: seq<Operation>, id: CharID)
    requires log != []
    ensures var n := |log| - 1;
            Landed(log, id) <==> Landed(log[..n], id) || LandsAt(log, n, id)
  {
    var n := |log| - 1;
    forall k | 0 <= k < n ensures LandsAt(log, k, id) <==> LandsAt(log[..n], k, id) {
      assert log[..n][..k] == log[..k];
    }
    if Landed(log, id) {
      var k :| 0 <= k < |log| && LandsAt(log, k, id);
      assert k < n ==> LandsAt(log[..n], k, id);
    }
    if Landed(log[..n], id) {
      var k :| 0 <= k < n && LandsAt(log[..n], k, id);
      assert LandsAt(log, k, id);
    }
  }

  lemma LandedIsReady(log: seq<Operation>, id: CharID)
    requires Landed(log, id)
    ensures Ready(SetOf(log), id)
  {
    var k :| 0 <= k < |log| && LandsAt(log, k, id);
    ReadyGrows(SetOf(log[..k]), SetOf(log), id);
  }

  /** The state after processing `log`, in closed form. */
  ghost predicate Outcome(log: seq<Operation>, p: Peer) {
    && Explains(SetOf(log), p)
    && p.pending == Blocked(p.replica.content, log)
    && (forall id :: id in p.replica.content ==> (p.replica.content[id].dead <==> Landed(log, id)))
  }

  lemma ReceiveLeavesBlocked(log: seq<Operation>, p: Peer, op: Operation)
    requires Rooted(p.replica.content) && p.pending == Blocked(p.replica.content, log)
    ensures Receive(p, op).pending == Blocked(Receive(p, op).replica.content, log + [op])
  {
    var c, q := p.replica.content, Receive(p, op);
    var c' := q.replica.content;
    assert (log + [op])[..|log|] == log;
    if CanApply(c, op) {
      var r := Apply(p.replica, op);
      IntegrateGrows(c, op);
      DrainGrows(r, p.pending);
      DrainLeavesBlocked(r, p.pending);
      GrowsTransitive(c, r.content, c');
      BlockedTwice(c, c', log);
    }
  }

  lemma ReceiveTombstones(s: set<Operation>, p: Peer, op: Operation)
    requires Consistent(s + {op}) && Explains(s, p)
    ensures var c, c' := p.replica.content, Receive(p, op).replica.content;
            forall id :: id in c' ==>
              (c'[id].dead <==> id in c && (c[id].dead || (op.kind == DELETE && op.id == id)))
  {
    var c := p.replica.content;
    if CanApply(c, op) {
      var r := Apply(p.replica, op);
      IntegrateGrows(c, op);
      DrainKeepsTombstones(r, p.pending);
    }
  }

  lemma TombstoneStep(log: seq<Operation>, p: Peer, id: CharID)
    requires log != [] && Consistent(SetOf(log)) && Outcome(log[..|log| - 1], p)
    ensures var c' := Receive(p, log[|log| - 1]).replica.content;
            id in c' ==> (c'[id].dead <==> Landed(log, id))
  {
    var n := |log| - 1;
    var before, op, s := log[..n], log[n], SetOf(log[..n]);
    SetOfStep(log);
    ReceiveExplained(s, p, op);
    ReceiveTombstones(s, p, op);
    ExactReadiness(s, p);
    LandedStep(log, id);
    if Landed(before, id) { LandedIsReady(before, id); }
    assert Known(p.replica.content, id) <==> Ready(s, id);
  }

  lemma OutcomeStep(log: seq<Operation>, p: Peer)
    requires log != [] && Consistent(SetOf(log)) && Outcome(log[..|log| - 1], p)
    ensures Outcome(log, Receive(p, log[|log| - 1]))
  {
    var n := |log| - 1;
    var before, op := log[..n], log[n];
    SetOfStep(log);
    ReceiveExplained(SetOf(before), p, op);
    ReceiveLeavesBlocked(before, p, op);
    assert before + [op] == log;
    var c' := Receive(p, op).replica.content;
    forall id | id in c' ensures c'[id].dead <==> Landed(log, id) {
      TombstoneStep(log, p, id);
    }
  }

  /** Every log, in any order and with any duplication, leads to its closed form:
      the ready inserts are integrated, the blocked ones are pending in arrival
      order, and exactly the landed deletes show. */
  lemma {:induction false} ProcessedLog(log: seq<Operation>)
    requires Consistent(SetOf(log))
    ensures Outcome(log, ReceiveAll(NEWCOMER, log))
  {
    if log != [] {
      var n := |log| - 1;
      SetOfStep(log);
      ProcessedLog(log[..n]);
      OutcomeStep(log, ReceiveAll(NEWCOMER, log[..n]));
    }
  }

  // --- convergence -----------------------------------------------------------------

  /** Two peers that processed the same operations hold the same sequence exactly
      when the same deletes met their targets. */
  lemma ConvergesIff(log: seq<Operation>, log': seq<Operation>)
    requires SetOf(log) == SetOf(log') && Consistent(SetOf(log))
    ensures var p, q := ReceiveAll(NEWCOMER, log), ReceiveAll(NEWCOMER, log');
            && SameInserts(p.replica.content, q.replica.content)
            && (Render(p.replica.content) == Render(q.replica.content)
                <==> forall id :: id != SENTINEL_ID ==> (Landed(log, id) <==> Landed(log', id)))
  {
    var p, q := ReceiveAll(NEWCOMER, log), ReceiveAll(NEWCOMER, log');
    var c, c', s := p.replica.content, q.replica.content, SetOf(log);
    ProcessedLog(log);
    ProcessedLog(log');
    ExplainedAlike(s, p, q);
    ExactReadiness(s, p);
    RenderInjective(c, c');
    forall id | Landed(log, id) || Landed(log', id) ensures Known(c, id) {
      if Landed(log, id) { LandedIsReady(log, id); } else { LandedIsReady(log', id); }
      assert Known(c, id) <==> Ready(s, id);
    }
    if forall id :: id != SENTINEL_ID ==> (Landed(log, id) <==> Landed(log', id)) {
      forall id | id in c ensures c[id] == c'[id] {
        assert Landed(log, id) <==> Landed(log', id);
      }
      assert c == c';
    }
    if c == c' {
      forall id | id != SENTINEL_ID ensures Landed(log, id) <==> Landed(log', id) {
        assert Landed(log, id) || Landed(log', id) ==> Known(c, id);
      }
    }
  }

  /** Each delete arrives once its target's chain has. */
  ghost predicate DeletesInOrder(log: seq<Operation>) {
    forall k :: 0 <= k < |log| && log[k].kind == DELETE ==> LandsAt(log, k, log[k].id)
  }

  lemma InOrderLanded(log: seq<Operation>, id: CharID)
    requires DeletesInOrder(log)
    ensures Landed(log, id) <==> Deletes(SetOf(log), id)
  {
    if Landed(log, id) {
      var k :| 0 <= k < |log| && LandsAt(log, k, id);
      assert log[k] in SetOf(log);
    }
    if Deletes(SetOf(log), id) {
      var op :| op in SetOf(log) && op.kind == DELETE && op.id == id;
      var k :| 0 <= k < |log| && log[k] == op;
      assert LandsAt(log, k, id);
    }
  }

  /** Convergence: whatever the orders and duplications, as long as no delete
      overtakes its target. For inserts no order is assumed at all. */
  lemma PeersConverge(log: seq<Operation>, log': seq<Operation>)
    requires SetOf(log) == SetOf(log') && Consistent(SetOf(log))
    requires DeletesInOrder(log) && DeletesInOrder(log')
    ensures var p, q := ReceiveAll(NEWCOMER, log), ReceiveAll(NEWCOMER, log');
            p.replica.content == q.replica.content && Render(p.replica.content) == Render(q.replica.content)
  {
    forall id ensures Landed(log, id) <==> Landed(log', id) {
      InOrderLanded(log, id);
      InOrderLanded(log', id);
    }
    ConvergesIff(log, log');
    ProcessedLog(log);
    ProcessedLog(log');
    RenderInjective(ReceiveAll(NEWCOMER, log).replica.content, ReceiveAll(NEWCOMER, log').replica.content);
  }
}
