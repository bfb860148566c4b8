/** The delivery machinery of one peer: operations arrive in any order, wait in
    the pending queue until their left neighbour is there, and are drained to a
    fixpoint. The result is a function of what was received. */
module Delivery {
  import opened Types
  import opened PathOrder
  import opened PreOrder
  import opened Replicas

  datatype Drained = Drained(r: Replica, left: seq<Operation>, applied: seq<Operation>)

  /** One scan of the pending queue, front to back. */
  function Pass(r: Replica, ops: seq<Operation>): (d: Drained)
    ensures |d.left| + |d.applied| == |ops|
    decreases |ops|
  {
    if ops == [] then Drained(r, [], [])
    else if CanApply(r.content, ops[0]) then
      var d := Pass(Apply(r, ops[0]), ops[1..]);
      d.(applied := [ops[0]] + d.applied)
    else
      var d := Pass(r, ops[1..]);
      d.(left := [ops[0]] + d.left)
  }

  /** Scans until one of them applies nothing. */
  function Drain(r: Replica, ops: seq<Operation>): (d: Drained)
    ensures |d.left| + |d.applied| == |ops|
    decreases |ops|
  {
    var d := Pass(r, ops);
    if d.applied == [] then d
    else
      var d' := Drain(d.r, d.left);
      d'.(applied := d.applied + d'.applied)
  }

  /** What a peer holds between two steps: the engine's state and the queue. */
  datatype Peer = Peer(replica: Replica, pending: seq<Operation>)

  const NEWCOMER: Peer := Peer(EMPTY, [])

  function DrainPeer(p: Peer): Peer {
    var d := Drain(p.replica, p.pending);
    Peer(d.r, d.left)
  }

  /** One remote operation: applied with everything it unblocks, or queued. */
  function Receive(p: Peer, op: Operation): Peer {
    if CanApply(p.replica.content, op) then
      DrainPeer(Peer(Apply(p.replica, op), p.pending))
    else
      Peer(p.replica, p.pending + [op])
  }

  /** The operations `Receive` applies, in order. */
  function AppliedBy(p: Peer, op: Operation): seq<Operation> {
    if CanApply(p.replica.content, op) then [op] + Drain(Apply(p.replica, op), p.pending).applied
    else []
  }

  function ReceiveAll(p: Peer, log: seq<Operation>): Peer {
    if log == [] then p
    else Receive(ReceiveAll(p, log[..|log| - 1]), log[|log| - 1])
  }

  function SetOf(log: seq<Operation>): set<Operation> {
    set op | op in log
  }

  // --- draining --------------------------------------------------------------

  lemma {:induction false} PassConserves(r: Replica, ops: seq<Operation>)
    ensures var d := Pass(r, ops); multiset(d.left) + multiset(d.applied) == multiset(ops)
    decreases |ops|
  {
    if ops != [] {
      assert ops == [ops[0]] + ops[1..];
      if CanApply(r.content, ops[0]) {
        PassConserves(Apply(r, ops[0]), ops[1..]);
      } else {
        PassConserves(r, ops[1..]);
      }
    }
  }

  /** A scan goes from the front to the back: each operation is met after the ones
      queued before it, and applied then or kept for a later scan. */
  lemma {:induction false} PassExtends(r: Replica, ops: seq<Operation>, op: Operation)
    ensures var d := Pass(r, ops);
            Pass(r, ops + [op]) ==
            if CanApply(d.r.content, op) then Drained(Apply(d.r, op), d.left, d.applied + [op])
            else Drained(d.r, d.left + [op], d.applied)
    decreases |ops|
  {
    if ops == [] {
      assert [] + [op] == [op] && [op][1..] == [];
    } else {
      assert (ops + [op])[1..] == ops[1..] + [op];
      PassExtends(if CanApply(r.content, ops[0]) then Apply(r, ops[0]) else r, ops[1..], op);
    }
  }

  /** Every pending operation is applied exactly once or still pending. */
  lemma {:induction false} DrainConserves(r: Replica, ops: seq<Operation>)
    ensures var d := Drain(r, ops); multiset(d.left) + multiset(d.applied) == multiset(ops)
    decreases |ops|
  {
    var d := Pass(r, ops);
    PassConserves(r, ops);
    if d.applied != [] {
      DrainConserves(d.r, d.left);
    }
  }

  lemma {:induction false} PassGrows(r: Replica, ops: seq<Operation>)
    requires Rooted(r.content)
    ensures var d := Pass(r, ops);
            Rooted(d.r.content) && Grows(r.content, d.r.content) && r.clock <= d.r.clock
    decreases |ops|
  {
    if ops != [] {
      if CanApply(r.content, ops[0]) {
        IntegrateGrows(r.content, ops[0]);
        PassGrows(Apply(r, ops[0]), ops[1..]);
        GrowsTransitive(r.content, Apply(r, ops[0]).content, Pass(r, ops).r.content);
      } else {
        PassGrows(r, ops[1..]);
      }
    }
  }

  lemma {:induction false} DrainGrows(r: Replica, ops: seq<Operation>)
    requires Rooted(r.content)
    ensures var d := Drain(r, ops);
            Rooted(d.r.content) && Grows(r.content, d.r.content) && r.clock <= d.r.clock
    decreases |ops|
  {
    var d := Pass(r, ops);
    PassGrows(r, ops);
    if d.applied != [] {
      DrainGrows(d.r, d.left);
      GrowsTransitive(r.content, d.r.content, Drain(d.r, d.left).r.content);
    }
  }

  /** Nothing in the queue is applicable. */
  predicate Settled(c: Content, pending: seq<Operation>) {
    forall op :: op in pending ==> !CanApply(c, op)
  }

  lemma {:induction false} IdlePass(r: Replica, ops: seq<Operation>)
    requires Pass(r, ops).applied == []
    ensures Pass(r, ops) == Drained(r, ops, []) && Settled(r.content, ops)
  {
    if ops != [] {
      IdlePass(r, ops[1..]);
      assert ops == [ops[0]] + ops[1..];
    }
  }

  lemma {:induction false} DrainSettles(r: Replica, ops: seq<Operation>)
    ensures var d := Drain(r, ops); Settled(d.r.content, d.left)
    decreases |ops|
  {
    var d := Pass(r, ops);
    if d.applied == [] {
      IdlePass(r, ops);
    } else {
      DrainSettles(d.r, d.left);
    }
  }

  /** The operations of `log` that `c` cannot apply, in order. */
  function Blocked(c: Content, log: seq<Operation>): seq<Operation> {
    if log == [] then []
    else Blocked(c, log[..|log| - 1]) + if CanApply(c, log[|log| - 1]) then [] else [log[|log| - 1]]
  }

  lemma {:induction false} BlockedConcat(c: Content, a: seq<Operation>, b: seq<Operation>)
    ensures Blocked(c, a + b) == Blocked(c, a) + Blocked(c, b)
  {
    if b == [] {
      assert a + b == a;
    } else {
      var n := |b| - 1;
      assert (a + b)[..|a + b| - 1] == a + b[..n];
      BlockedConcat(c, a, b[..n]);
    }
  }

  lemma {:induction false} BlockedSettled(c: Content, ops: seq<Operation>)
    requires Settled(c, ops)
    ensures Blocked(c, ops) == ops
  {
    if ops != [] {
      var n := |ops| - 1;
      assert ops == ops[..n] + [ops[n]];
      BlockedSettled(c, ops[..n]);
    }
  }

  /** Growth only unblocks. */
  lemma {:induction false} BlockedTwice(c: Content, c': Content, log: seq<Operation>)
    requires Grows(c, c')
    ensures Blocked(c', Blocked(c, log)) == Blocked(c', log)
  {
    if log != [] {
      var n := |log| - 1;
      BlockedTwice(c, c', log[..n]);
      var tail := if CanApply(c, log[n]) then [] else [log[n]];
      BlockedConcat(c', Blocked(c, log[..n]), tail);
      assert |tail| == 1 ==> tail[..0] == [] && Blocked(c', tail[..0]) == [];
    }
  }

  lemma {:induction false} PassBlocked(r: Replica, ops: seq<Operation>, c: Content)
    requires Rooted(r.content) && Grows(Pass(r, ops).r.content, c)
    ensures Blocked(c, Pass(r, ops).left) == Blocked(c, ops)
    decreases |ops|
  {
    if ops != [] {
      var op, rest := ops[0], ops[1..];
      BlockedConcat(c, [op], rest);
      assert ops == [op] + rest && [op][..0] == [];
      if CanApply(r.content, op) {
        IntegrateGrows(r.content, op);
        PassGrows(Apply(r, op), rest);
        PassBlocked(Apply(r, op), rest, c);
      } else {
        PassBlocked(r, rest, c);
        BlockedConcat(c, [op], Pass(r, rest).left);
      }
    }
  }

  /** Draining leaves exactly the operations that are blocked afterwards, in the
      order they were queued. */
  lemma {:induction false} DrainLeavesBlocked(r: Replica, ops: seq<Operation>)
    requires Rooted(r.content)
    ensures var d := Drain(r, ops); d.left == Blocked(d.r.content, ops)
    decreases |ops|
  {
    var d := Pass(r, ops);
    PassGrows(r, ops);
    if d.applied == [] {
      IdlePass(r, ops);
      BlockedSettled(r.content, ops);
    } else {
      DrainGrows(d.r, d.left);
      PassBlocked(r, ops, Drain(d.r, d.left).r.content);
      DrainLeavesBlocked(d.r, d.left);
    }
  }

  // --- what the state says about the operations received ------------------------

  /** Inserts agree on their identity, and none claims the sentinel's. */
  ghost predicate Consistent(s: set<Operation>) {
    && (forall op :: op in s && op.kind == INSERT ==> op.id != SENTINEL_ID)
    && (forall a, b :: a in s && b in s && a.kind == INSERT && b.kind == INSERT && a.id == b.id ==> a == b)
  }

  ghost predicate Deletes(s: set<Operation>, id: CharID) {
    exists op :: op in s && op.kind == DELETE && op.id == id
  }

  /** Everything integrated or pending was received, and every received insert is
      integrated or pending. */
  ghost predicate Carries(s: set<Operation>, c: Content, pending: seq<Operation>) {
    && Rooted(c)
    && (forall id {:trigger id in c} :: id in c ==> InsertOp(id, c[id]) in s && (c[id].dead ==> Deletes(s, id)))
    && (forall op :: op in pending ==> op in s && op.kind == INSERT)
    && (forall op {:trigger op in s} :: op in s && op.kind == INSERT ==> op.id in c || op in pending)
  }

  ghost predicate Explains(s: set<Operation>, p: Peer) {
    Carries(s, p.replica.content, p.pending) && Settled(p.replica.content, p.pending)
  }

  lemma CarriesApplied(s: set<Operation>, c: Content, op: Operation, before: seq<Operation>, after: seq<Operation>)
    requires Consistent(s) && Carries(s, c, before + [op] + after) && CanApply(c, op)
    ensures Carries(s, Integrate(c, op), before + after)
  {
    IntegrateGrows(c, op);
    assert op in before + [op] + after;
    forall x | x in before + after ensures x in s && x.kind == INSERT {
      assert x in before + [op] + after;
    }
    forall x | x in s && x.kind == INSERT ensures x.id in Integrate(c, op) || x in before + after {
      assert x.id in c || x in before + [op] + after;
    }
  }

  lemma {:induction false} PassCarries(s: set<Operation>, r: Replica, kept: seq<Operation>, ops: seq<Operation>)
    requires Consistent(s) && Carries(s, r.content, kept + ops)
    ensures var d := Pass(r, ops); Carries(s, d.r.content, kept + d.left)
    decreases |ops|
  {
    if ops != [] {
      var op, rest := ops[0], ops[1..];
      assert kept + ops == kept + [op] + rest;
      if CanApply(r.content, op) {
        CarriesApplied(s, r.content, op, kept, rest);
        PassCarries(s, Apply(r, op), kept, rest);
      } else {
        PassCarries(s, r, kept + [op], rest);
        assert kept + [op] + Pass(r, rest).left == kept + Pass(r, ops).left;
      }
    }
  }

  lemma {:induction false} DrainCarries(s: set<Operation>, r: Replica, ops: seq<Operation>)
    requires Consistent(s) && Carries(s, r.content, ops)
    ensures var d := Drain(r, ops); Carries(s, d.r.content, d.left)
    decreases |ops|
  {
    var d := Pass(r, ops);
    assert [] + ops == ops && [] + d.left == d.left;
    PassCarries(s, r, [], ops);
    if d.applied != [] {
      DrainCarries(s, d.r, d.left);
    }
  }

  lemma CarriesReceived(s: set<Operation>, p: Peer, op: Operation)
    requires Consistent(s + {op}) && Carries(s, p.replica.content, p.pending)
    ensures if CanApply(p.replica.content, op)
            then Carries(s + {op}, Integrate(p.replica.content, op), p.pending)
            else Carries(s + {op}, p.replica.content, p.pending + [op])
  {
    var c, s' := p.replica.content, s + {op};
    assert op in s';
    if CanApply(c, op) {
      IntegrateGrows(c, op);
      var c' := Integrate(c, op);
      forall id | id in c' ensures InsertOp(id, c'[id]) in s' && (c'[id].dead ==> Deletes(s', id)) {
        if id in c && c[id].dead {
          var d :| d in s && d.kind == DELETE && d.id == id;
          assert d in s';
        }
      }
    } else {
      forall id | id in c && c[id].dead ensures Deletes(s', id) {
        var d :| d in s && d.kind == DELETE && d.id == id;
        assert d in s';
      }
    }
  }

  lemma DrainPeerCarries(s: set<Operation>, p: Peer)
    requires Consistent(s) && Carries(s, p.replica.content, p.pending)
    ensures Explains(s, DrainPeer(p))
  {
    DrainCarries(s, p.replica, p.pending);
    DrainSettles(p.replica, p.pending);
  }

  /** The settled peer stays explained by what it has received. */
  lemma ReceiveExplained(s: set<Operation>, p: Peer, op: Operation)
    requires Consistent(s + {op}) && Explains(s, p)
    ensures Explains(s + {op}, Receive(p, op))
  {
    CarriesReceived(s, p, op);
    if CanApply(p.replica.content, op) {
      DrainPeerCarries(s + {op}, Peer(Apply(p.replica, op), p.pending));
    }
  }

  // --- readiness ---------------------------------------------------------------

  ghost predicate Inserts(s: set<Operation>, id: CharID, left: CharID) {
    exists op :: op in s && op.kind == INSERT && op.id == id && op.left == left
  }

  /** `p` lists inserts of `s`, each right of the one before, from the sentinel to `id`. */
  ghost predicate IsChain(s: set<Operation>, id: CharID, p: Path) {
    && (forall k :: 0 <= k < |p| ==> ChainStep(s, p, k))
    && id == Above(p, |p|)
  }

  ghost predicate ChainStep(s: set<Operation>, p: Path, k: nat)
    requires k < |p|
  {
    Inserts(s, p[k], Above(p, k))
  }

  /** The whole left-neighbour chain of `id` has been received. */
  ghost predicate Ready(s: set<Operation>, id: CharID) {
    exists p :: IsChain(s, id, p)
  }

  lemma ReadyGrows(s: set<Operation>, s': set<Operation>, id: CharID)
    requires s <= s' && Ready(s, id)
    ensures Ready(s', id)
  {
    var p :| IsChain(s, id, p);
    forall k | 0 <= k < |p| ensures ChainStep(s', p, k) {
      assert ChainStep(s, p, k);
    }
    assert IsChain(s', id, p);
  }

  lemma IntegratedIsReady(s: set<Operation>, c: Content, pending: seq<Operation>, id: CharID)
    requires Carries(s, c, pending) && Known(c, id)
    ensures Ready(s, id)
  {
    var p := PathOf(c, id);
    forall k | 0 <= k < |p| ensures ChainStep(s, p, k) {
      assert IsStep(c, p, k);
      assert InsertOp(p[k], c[p[k]]) in s;
    }
    assert IsChain(s, id, p);
  }

  lemma {:induction false} ChainIsIntegrated(s: set<Operation>, p: Peer, id: CharID, chain: Path)
    requires Consistent(s) && Explains(s, p) && IsChain(s, id, chain)
    ensures Known(p.replica.content, id)
    decreases |chain|
  {
    if chain != [] {
      var n := |chain| - 1;
      forall k | 0 <= k < n ensures ChainStep(s, chain[..n], k) {
        assert ChainStep(s, chain, k) && Above(chain[..n], k) == Above(chain, k);
      }
      ChainIsIntegrated(s, p, Above(chain, n), chain[..n]);
      assert ChainStep(s, chain, n);
    }
  }

  /** Exact readiness: the integrated characters are those whose whole chain has
      been received; the others, and only they, are pending. */
  lemma ExactReadiness(s: set<Operation>, p: Peer)
    requires Consistent(s) && Explains(s, p)
    ensures forall id :: Known(p.replica.content, id) <==> Ready(s, id)
    ensures forall op :: op in p.pending <==> op in s && op.kind == INSERT && !Ready(s, op.id)
  {
    var c := p.replica.content;
    forall id ensures Known(c, id) <==> Ready(s, id) {
      if Known(c, id) {
        IntegratedIsReady(s, c, p.pending, id);
      }
      if Ready(s, id) {
        var chain :| IsChain(s, id, chain);
        ChainIsIntegrated(s, p, id, chain);
      }
    }
    forall op | op in s && op.kind == INSERT && op.id in c ensures CanApply(c, op) {
      PathStep(c, op.id);
      assert InsertOp(op.id, c[op.id]) == op;
    }
  }

  /** Equal but for tombstones. */
  predicate SameInserts(c: Content, c': Content) {
    c.Keys == c'.Keys && forall id :: id in c ==> c[id].left == c'[id].left && c[id].value == c'[id].value
  }

  /** What has been received determines what is integrated, however it arrived. */
  lemma ExplainedAlike(s: set<Operation>, p: Peer, q: Peer)
    requires Consistent(s) && Explains(s, p) && Explains(s, q)
    ensures SameInserts(p.replica.content, q.replica.content)
    ensures forall op :: op in p.pending <==> op in q.pending
  {
    ExactReadiness(s, p);
    ExactReadiness(s, q);
    var c, c' := p.replica.content, q.replica.content;
    forall id ensures id in c <==> id in c' {
      assert Known(c, id) <==> Known(c', id);
    }
    forall id | id in c ensures c[id].left == c'[id].left && c[id].value == c'[id].value {
      assert InsertOp(id, c[id]) == InsertOp(id, c'[id]);
    }
  }

  /** Every received delete has taken effect. */
  predicate DeletesLanded(s: set<Operation>, c: Content) {
    forall op :: op in s && op.kind == DELETE ==> op.id in c && c[op.id].dead
  }

  /** With every delete landed, the whole state is determined. */
  lemma LandedAlike(s: set<Operation>, p: Peer, q: Peer)
    requires Consistent(s) && Explains(s, p) && Explains(s, q)
    requires DeletesLanded(s, p.replica.content) && DeletesLanded(s, q.replica.content)
    ensures p.replica.content == q.replica.content
    ensures Render(p.replica.content) == Render(q.replica.content)
  {
    ExplainedAlike(s, p, q);
    var c, c' := p.replica.content, q.replica.content;
    forall id | id in c ensures c[id] == c'[id] {
      if c[id].dead || c'[id].dead {
        var d :| d in s && d.kind == DELETE && d.id == id;
      }
    }
  }

  // --- deletes that find their target and deletes that do not --------------------

  /** What of one operation the peer holds on to. */
  function KeptBy(c: Content, op: Operation): set<Operation> {
    if Misses(c, op) then {} else {op}
  }

  function DroppedBy(c: Content, op: Operation): set<Operation> {
    if Misses(c, op) then {op} else {}
  }

  /** `s` is what the settled peer stands for: its inserts are integrated or pending
      as far as they are ready, and all its deletes have taken effect. */
  ghost predicate Accounts(s: set<Operation>, p: Peer) {
    Explains(s, p) && DeletesLanded(s, p.replica.content)
  }

  lemma ExplainsMore(s: set<Operation>, s': set<Operation>, p: Peer)
    requires Explains(s, p) && s <= s'
    requires forall op :: op in s' && op !in s && op.kind == INSERT ==> op.id in p.replica.content || op in p.pending
    ensures Explains(s', p)
  {
    forall id | id in p.replica.content && p.replica.content[id].dead ensures Deletes(s', id) {
      var d :| d in s && d.kind == DELETE && d.id == id;
      assert d in s';
    }
  }

  /** What a peer keeps of an operation shows in its state, settled or not. */
  lemma ReceiveKeeps(s: set<Operation>, p: Peer, op: Operation)
    requires Consistent(s + {op}) && Carries(s, p.replica.content, p.pending)
    requires DeletesLanded(s, p.replica.content)
    ensures var s', q := s + KeptBy(p.replica.content, op), Receive(p, op);
            && Carries(s', q.replica.content, q.pending) && DeletesLanded(s', q.replica.content)
            && (Settled(p.replica.content, p.pending) || CanApply(p.replica.content, op) ==> Accounts(s', q))
  {
    var c, s' := p.replica.content, s + KeptBy(p.replica.content, op);
    if Misses(c, op) {
      assert s + {} == s && Integrate(c, op) == c;
      DrainPeerCarries(s, Peer(Apply(p.replica, op), p.pending));
      DrainGrows(Apply(p.replica, op), p.pending);
    } else {
      CarriesReceived(s, p, op);
      if CanApply(c, op) {
        IntegrateGrows(c, op);
        DrainPeerCarries(s', Peer(Apply(p.replica, op), p.pending));
        DrainGrows(Apply(p.replica, op), p.pending);
      }
    }
  }

  /** The operations of `log` that the peer keeps, and those it drops. */
  function Kept(p: Peer, log: seq<Operation>): set<Operation> {
    if log == [] then {}
    else
      var n := |log| - 1;
      Kept(p, log[..n]) + KeptBy(ReceiveAll(p, log[..n]).replica.content, log[n])
  }

  function Dropped(p: Peer, log: seq<Operation>): set<Operation> {
    if log == [] then {}
    else
      var n := |log| - 1;
      Dropped(p, log[..n]) + DroppedBy(ReceiveAll(p, log[..n]).replica.content, log[n])
  }

  lemma SetOfStep(log: seq<Operation>)
    requires log != []
    ensures var n := |log| - 1; SetOf(log) == SetOf(log[..n]) + {log[n]}
  {
    var n := |log| - 1;
    assert log == log[..n] + [log[n]];
  }

  lemma {:induction false} KeptOrDropped(p: Peer, log: seq<Operation>)
    ensures Kept(p, log) + Dropped(p, log) == SetOf(log)
    ensures forall op :: op in Dropped(p, log) ==> op.kind == DELETE
  {
    if log != [] {
      SetOfStep(log);
      KeptOrDropped(p, log[..|log| - 1]);
    }
  }

  lemma ConsistentSubset(s: set<Operation>, t: set<Operation>)
    requires s <= t && Consistent(t)
    ensures Consistent(s)
  {
  }

  lemma PrefixConsistent(s: set<Operation>, p: Peer, log: seq<Operation>)
    requires log != [] && Consistent(s + SetOf(log))
    ensures var rest, op := log[..|log| - 1], log[|log| - 1];
            Consistent(s + SetOf(rest)) && Consistent(s + Kept(p, rest) + {op})
  {
    var rest, op := log[..|log| - 1], log[|log| - 1];
    SetOfStep(log);
    KeptOrDropped(p, rest);
    ConsistentSubset(s + SetOf(rest), s + SetOf(log));
    ConsistentSubset(s + Kept(p, rest) + {op}, s + SetOf(log));
  }

  /** The same over a whole log, from a state that need not be settled. */
  lemma {:induction false} ReceiveAllKeeps(s: set<Operation>, p: Peer, log: seq<Operation>)
    requires Consistent(s + SetOf(log)) && Carries(s, p.replica.content, p.pending)
    requires DeletesLanded(s, p.replica.content)
    ensures var s', q := s + Kept(p, log), ReceiveAll(p, log);
            && Carries(s', q.replica.content, q.pending) && DeletesLanded(s', q.replica.content)
            && Grows(p.replica.content, q.replica.content) && p.replica.clock <= q.replica.clock
  {
    if log == [] {
      assert s + {} == s;
    } else {
      var n := |log| - 1;
      var rest, op := log[..n], log[n];
      var s', q := s + Kept(p, rest), ReceiveAll(p, rest);
      PrefixConsistent(s, p, log);
      ReceiveAllKeeps(s, p, rest);
      ReceiveKeeps(s', q, op);
      ReceiveGrows(q, op);
      GrowsTransitive(p.replica.content, q.replica.content, Receive(q, op).replica.content);
      assert s + Kept(p, log) == s' + KeptBy(q.replica.content, op);
    }
  }

  lemma ReceiveGrows(p: Peer, op: Operation)
    requires Rooted(p.replica.content)
    ensures var r := Receive(p, op).replica;
            Rooted(r.content) && Grows(p.replica.content, r.content) && p.replica.clock <= r.clock
  {
    if CanApply(p.replica.content, op) {
      IntegrateGrows(p.replica.content, op);
      DrainGrows(Apply(p.replica, op), p.pending);
      GrowsTransitive(p.replica.content, Apply(p.replica, op).content, Receive(p, op).replica.content);
    }
  }
}
