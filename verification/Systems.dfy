/** Many sites and a network that may reorder, duplicate and lose messages: local
    edits, deliveries and snapshot transfers as atomic steps, and what every run keeps. */
module Systems {
  import opened Types
  import opened PathOrder
  import opened PreOrder
  import opened Visible
  import opened Replicas
  import opened Delivery
  import opened LateJoin

  /** One peer, with the history needed to state what it has processed: `kept` are
      the operations its state is built from, `missed` the deletes that were processed
      while their target was absent, and `popped` the operations taken from its incoming
      queue. `lossless` says that no transfer failed or was restarted while operations
      were buffered, and that no load gave up anything the site had. */
  datatype Site = Site(peer: Peer, syncing: bool, buffer: seq<Operation>, kept: set<Operation>,
                       missed: set<Operation>, popped: set<Operation>, lossless: bool)

  /** `sent` is everything ever broadcast: the network may deliver any of it, to any
      site, at any time, any number of times, or never. `snaps` are the states ever
      serialized for a joiner. */
  datatype System = System(sites: map<UInt32, Site>, sent: set<Operation>, snaps: set<Replica>, edits: nat)

  datatype Step =
    | Insert(site: UInt32, pos: int, value: Byte)
    | Delete(site: UInt32, at: nat)
    | DeleteNothing(site: UInt32)
    | Deliver(site: UInt32, op: Operation)
    | Serialize(site: UInt32)
    | BeginSync(site: UInt32)
    | Load(site: UInt32, snap: Replica)
    | AbandonSync(site: UInt32)

  const NEW_SITE: Site := Site(NEWCOMER, false, [], {}, {}, {}, true)

  function Init(ids: set<UInt32>): System {
    System(map i | i in ids :: NEW_SITE, {}, {}, 0)
  }

  function ContentAt(s: System, i: UInt32): Content
    requires i in s.sites
  {
    s.sites[i].peer.replica.content
  }

  function ClockAt(s: System, i: UInt32): int
    requires i in s.sites
  {
    s.sites[i].peer.replica.clock
  }

  /** What the program can do while no clock overflows. */
  ghost predicate Possible(s: System, step: Step) {
    step.site in s.sites &&
    match step
    case Insert(i, _, _) => 0 <= ClockAt(s, i) < INT32_MAX
    case Delete(i, pos) => ClockAt(s, i) < INT32_MAX && pos < |Text(Render(ContentAt(s, i)))|
    case DeleteNothing(i) => ClockAt(s, i) < INT32_MAX
    case Deliver(_, op) => op in s.sent && op.id.clock < INT32_MAX
    case Load(i, snap) => snap in s.snaps
    case _ => true
  }

  /** No insert of site `i` is newer than `clock`. */
  predicate OwnUpTo(sent: set<Operation>, i: UInt32, clock: int) {
    forall op :: op in sent && op.kind == INSERT && op.id.siteID == i ==> op.id.clock <= clock
  }

  /** The one hypothesis on the environment: after a load the clock still covers the
      identities the joiner has given out. */
  ghost predicate Enabled(s: System, step: Step) {
    && Possible(s, step)
    && (step.Load? ==> OwnUpTo(s.sent, step.site, Loaded(s.sites[step.site], step.snap).peer.replica.clock))
  }

  ghost function EditOp(s: System, step: Step): Operation
    requires Possible(s, step) && (step.Insert? || step.Delete?)
  {
    match step
    case Insert(i, pos, value) => LocalInsertOp(ClockAt(s, i), i, Render(ContentAt(s, i)), pos, value)
    case Delete(i, pos) => DeleteOp(VisibleId(Render(ContentAt(s, i)), pos))
  }

  /** A local edit: applied at once and broadcast; nothing is drained. */
  function Edited(x: Site, op: Operation): Site {
    var r := x.peer.replica;
    x.(peer := x.peer.(replica := Replica(r.clock + 1, Integrate(r.content, op))), kept := x.kept + {op})
  }

  /** One turn of the consumer loop. */
  function Delivered(x: Site, op: Operation): Site {
    if x.syncing then x.(buffer := x.buffer + [op], popped := x.popped + {op})
    else x.(peer := Receive(x.peer, op), popped := x.popped + {op},
            kept := x.kept + KeptBy(x.peer.replica.content, op),
            missed := x.missed + DroppedBy(x.peer.replica.content, op))
  }

  /** A load replaces the state: what it keeps are the operations of the snapshot, of
      the queue and of the buffer, save the deletes that miss their target. */
  ghost function Loaded(x: Site, snap: Replica): Site {
    var start := Peer(snap, x.peer.pending);
    x.(peer := Replay(start, x.buffer), syncing := false, buffer := [],
       kept := KeptAfter(snap, x.peer.pending, x.buffer), missed := x.missed + Dropped(start, x.buffer),
       lossless := x.lossless && BringsBack(x.peer.replica.content, snap.content, x.peer.pending, x.buffer))
  }

  /** Both the start of a transfer and its failure clear the buffer. */
  function Cleared(x: Site, syncing: bool): Site {
    x.(syncing := syncing, buffer := [], lossless := x.lossless && x.buffer == [])
  }

  ghost function Do(s: System, step: Step): System
    requires Possible(s, step)
  {
    var i := step.site;
    var x := s.sites[i];
    match step
    case Insert(_, _, _) =>
      var op := EditOp(s, step);
      s.(sites := s.sites[i := Edited(x, op)], sent := s.sent + {op}, edits := s.edits + 1)
    case Delete(_, _) =>
      var op := EditOp(s, step);
      s.(sites := s.sites[i := Edited(x, op)], sent := s.sent + {op}, edits := s.edits + 1)
    case DeleteNothing(_) =>
      var r := x.peer.replica;
      s.(sites := s.sites[i := x.(peer := x.peer.(replica := r.(clock := r.clock + 1)))], edits := s.edits + 1)
    case Deliver(_, op) => s.(sites := s.sites[i := Delivered(x, op)])
    case Serialize(_) => s.(snaps := s.snaps + {x.peer.replica})
    case BeginSync(_) => s.(sites := s.sites[i := Cleared(x, true)])
    case Load(_, snap) => s.(sites := s.sites[i := Loaded(x, snap)])
    case AbandonSync(_) => s.(sites := s.sites[i := Cleared(x, false)])
  }

  // --- the invariant ------------------------------------------------------------------

  /** Every insert names a left neighbour that was inserted before it, with a
      strictly smaller clock; every delete names an inserted character. */
  ghost predicate Causal(sent: set<Operation>) {
    forall op {:trigger CausalOp(sent, op)} :: op in sent ==> CausalOp(sent, op)
  }

  ghost predicate CausalOp(sent: set<Operation>, op: Operation) {
    if op.kind == INSERT
    then op.left == SENTINEL_ID || (IsInserted(sent, op.left) && op.left.clock < op.id.clock)
    else op == DeleteOp(op.id) && IsInserted(sent, op.id)
  }

  ghost predicate IsInserted(sent: set<Operation>, id: CharID) {
    exists op :: op in sent && op.kind == INSERT && op.id == id
  }

  /** Clocks run at most two ahead per edit. */
  predicate ClocksBelow(ops: set<Operation>, bound: int) {
    forall op :: op in ops ==> op.id.clock < bound
  }

  ghost predicate ReplicaOk(sent: set<Operation>, edits: nat, r: Replica) {
    && Rooted(r.content) && OpsOf(r.content) <= sent
    && ClockCovers(r.clock, r.content) && r.clock <= 2 * edits
  }

  ghost predicate SiteOk(sent: set<Operation>, edits: nat, i: UInt32, x: Site) {
    && Accounts(x.kept, x.peer)
    && x.kept <= sent && SetOf(x.buffer) <= sent
    && (forall op :: op in x.missed ==> op in sent && op.kind == DELETE)
    && ReplicaOk(sent, edits, x.peer.replica)
    && OwnUpTo(sent, i, x.peer.replica.clock)
    && (x.lossless ==> x.popped <= x.kept + x.missed + SetOf(x.buffer))
  }

  ghost predicate Inv(s: System) {
    && Consistent(s.sent) && Causal(s.sent) && ClocksBelow(s.sent, 2 * s.edits)
    && (forall i {:trigger SiteOk(s.sent, s.edits, i, s.sites[i])} ::
          i in s.sites ==> SiteOk(s.sent, s.edits, i, s.sites[i]))
    && (forall r {:trigger ReplicaOk(s.sent, s.edits, r)} :: r in s.snaps ==> ReplicaOk(s.sent, s.edits, r))
  }

  // --- clocks through delivery ----------------------------------------------------------

  ghost predicate ClockOk(r: Replica, bound: int) {
    ClockCovers(r.clock, r.content) && r.clock <= bound
  }

  predicate OpsBelow(ops: seq<Operation>, bound: int) {
    forall op :: op in ops ==> op.id.clock < bound
  }

  lemma {:induction false} PassClock(r: Replica, ops: seq<Operation>, bound: int)
    requires ClockOk(r, bound) && OpsBelow(ops, bound)
    ensures ClockOk(Pass(r, ops).r, bound) && OpsBelow(Pass(r, ops).left, bound)
    decreases |ops|
  {
    if ops != [] {
      assert ops == [ops[0]] + ops[1..] && ops[0] in ops;
      PassClock(if CanApply(r.content, ops[0]) then Apply(r, ops[0]) else r, ops[1..], bound);
    }
  }

  lemma {:induction false} DrainClock(r: Replica, ops: seq<Operation>, bound: int)
    requires ClockOk(r, bound) && OpsBelow(ops, bound)
    ensures ClockOk(Drain(r, ops).r, bound) && OpsBelow(Drain(r, ops).left, bound)
    decreases |ops|
  {
    PassClock(r, ops, bound);
    var d := Pass(r, ops);
    if d.applied != [] {
      DrainClock(d.r, d.left, bound);
    }
  }

  lemma ReceiveClock(p: Peer, op: Operation, bound: int)
    requires ClockOk(p.replica, bound) && OpsBelow(p.pending, bound) && op.id.clock < bound
    ensures ClockOk(Receive(p, op).replica, bound) && OpsBelow(Receive(p, op).pending, bound)
  {
    if CanApply(p.replica.content, op) {
      DrainClock(Apply(p.replica, op), p.pending, bound);
    }
  }

  lemma {:induction false} ReceiveAllClock(p: Peer, log: seq<Operation>, bound: int)
    requires ClockOk(p.replica, bound) && OpsBelow(p.pending, bound) && OpsBelow(log, bound)
    ensures ClockOk(ReceiveAll(p, log).replica, bound) && OpsBelow(ReceiveAll(p, log).pending, bound)
  {
    if log != [] {
      var n := |log| - 1;
      assert log == log[..n] + [log[n]];
      ReceiveAllClock(p, log[..n], bound);
      ReceiveClock(ReceiveAll(p, log[..n]), log[n], bound);
    }
  }

  // --- growth of what is sent ---------------------------------------------------------------

  lemma OpsOfExplained(s: set<Operation>, c: Content, pending: seq<Operation>, sent: set<Operation>)
    requires Carries(s, c, pending) && s <= sent && Causal(sent)
    ensures OpsOf(c) <= sent
  {
    forall op | op in OpsOf(c) ensures op in sent {
      if op.kind == DELETE {
        var d :| d in s && d.kind == DELETE && d.id == op.id;
        assert d in sent && CausalOp(sent, d);
      }
    }
  }

  lemma SiteMonotone(sent: set<Operation>, edits: nat, sent': set<Operation>, edits': nat, i: UInt32, x: Site)
    requires SiteOk(sent, edits, i, x) && sent <= sent' && edits <= edits'
    requires forall op :: op in sent' && op !in sent && op.kind == INSERT ==> op.id.siteID != i
    ensures SiteOk(sent', edits', i, x)
  {
  }

  /** Everything but one site is untouched. */
  lemma InvAfter(s: System, i: UInt32, x': Site, sent': set<Operation>, edits': nat)
    requires Inv(s) && i in s.sites && s.sent <= sent' && s.edits <= edits'
    requires Consistent(sent') && Causal(sent') && ClocksBelow(sent', 2 * edits')
    requires forall op :: op in sent' && op !in s.sent && op.kind == INSERT ==> op.id.siteID == i
    requires SiteOk(sent', edits', i, x')
    ensures Inv(System(s.sites[i := x'], sent', s.snaps, edits'))
  {
    var s' := System(s.sites[i := x'], sent', s.snaps, edits');
    forall j | j in s'.sites ensures SiteOk(sent', edits', j, s'.sites[j]) {
      if j != i {
        assert SiteOk(s.sent, s.edits, j, s.sites[j]);
        SiteMonotone(s.sent, s.edits, sent', edits', j, s.sites[j]);
      }
    }
    forall r | r in s.snaps ensures ReplicaOk(sent', edits', r) {
      assert ReplicaOk(s.sent, s.edits, r);
    }
  }

  // --- one lemma per kind of step -------------------------------------------------------------

  /** A local insert gets an identity nobody has used, and unblocks nothing. */
  lemma InsertIsFresh(s: System, step: Step)
    requires Inv(s) && Enabled(s, step) && step.Insert?
    ensures var op := EditOp(s, step);
            && !IsInserted(s.sent, op.id) && op.id != SENTINEL_ID
            && !Known(ContentAt(s, step.site), op.id) && CanApply(ContentAt(s, step.site), op)
            && (op.left == SENTINEL_ID || (op.left in ContentAt(s, step.site) && op.left.clock < op.id.clock))
            && Settled(Integrate(ContentAt(s, step.site), op), s.sites[step.site].peer.pending)
  {
    var i := step.site;
    var op, x := EditOp(s, step), s.sites[i];
    assert SiteOk(s.sent, s.edits, i, x);
    LocalInsertShows(x.peer.replica, i, step.pos, step.value);
    forall q | q in x.peer.pending ensures !CanApply(Integrate(ContentAt(s, i), op), q) {
      assert q in s.sent && CausalOp(s.sent, q);
      assert q.left != SENTINEL_ID ==> IsInserted(s.sent, q.left);
    }
  }

  lemma SentGrows(sent: set<Operation>, op: Operation)
    requires Consistent(sent) && Causal(sent)
    requires op.kind == INSERT ==> op.id != SENTINEL_ID && !IsInserted(sent, op.id)
    requires op.kind == INSERT ==>
               op.left == SENTINEL_ID || (IsInserted(sent, op.left) && op.left.clock < op.id.clock)
    requires op.kind == DELETE ==> op == DeleteOp(op.id) && IsInserted(sent, op.id)
    ensures Consistent(sent + {op}) && Causal(sent + {op})
  {
    forall id | IsInserted(sent, id) ensures IsInserted(sent + {op}, id) {
      var o :| o in sent && o.kind == INSERT && o.id == id;
      assert o in sent + {op};
    }
    forall o | o in sent + {op} ensures CausalOp(sent + {op}, o) {
      assert o in sent ==> CausalOp(sent, o);
    }
  }

  /** What makes an operation a legitimate edit of site `i`. */
  ghost predicate EditOf(s: System, i: UInt32, op: Operation)
    requires i in s.sites
  {
    var c := ContentAt(s, i);
    if op.kind == INSERT then
      && op.id == CharID(op.id.clock, i) && op.id.clock == ClockAt(s, i) + 1
      && !IsInserted(s.sent, op.id) && op.id != SENTINEL_ID && CanApply(c, op)
      && (op.left == SENTINEL_ID || (op.left in c && op.left.clock < op.id.clock))
      && Settled(Integrate(c, op), s.sites[i].peer.pending)
    else op == DeleteOp(op.id) && op.id in c
  }

  lemma EditSent(s: System, i: UInt32, op: Operation)
    requires Inv(s) && i in s.sites && EditOf(s, i, op)
    ensures Consistent(s.sent + {op}) && Causal(s.sent + {op})
  {
    var x, c := s.sites[i], ContentAt(s, i);
    var id := if op.kind == INSERT then op.left else op.id;
    assert SiteOk(s.sent, s.edits, i, x);
    if id in c {
      assert InsertOp(id, c[id]) in x.kept;
      assert IsInserted(s.sent, id);
    }
    SentGrows(s.sent, op);
  }

  lemma EditAccounts(s: System, i: UInt32, op: Operation)
    requires Inv(s) && i in s.sites && EditOf(s, i, op)
    ensures Accounts(Edited(s.sites[i], op).kept, Edited(s.sites[i], op).peer)
    ensures Edited(s.sites[i], op).kept <= s.sent + {op}
  {
    var x := s.sites[i];
    assert SiteOk(s.sent, s.edits, i, x);
    EditSent(s, i, op);
    ConsistentSubset(x.kept + {op}, s.sent + {op});
    CarriesReceived(x.kept, x.peer, op);
  }

  lemma EditClock(s: System, i: UInt32, op: Operation)
    requires Inv(s) && i in s.sites && EditOf(s, i, op)
    ensures ClocksBelow(s.sent + {op}, 2 * (s.edits + 1))
    ensures ClockOk(Edited(s.sites[i], op).peer.replica, 2 * (s.edits + 1))
  {
    assert SiteOk(s.sent, s.edits, i, s.sites[i]);
  }

  lemma EditSiteOk(s: System, i: UInt32, op: Operation)
    requires Inv(s) && i in s.sites && EditOf(s, i, op)
    ensures SiteOk(s.sent + {op}, s.edits + 1, i, Edited(s.sites[i], op))
  {
    var x' := Edited(s.sites[i], op);
    assert SiteOk(s.sent, s.edits, i, s.sites[i]);
    EditSent(s, i, op);
    EditAccounts(s, i, op);
    OpsOfExplained(x'.kept, x'.peer.replica.content, x'.peer.pending, s.sent + {op});
    EditClock(s, i, op);
  }

  lemma EditKeeps(s: System, i: UInt32, op: Operation)
    requires Inv(s) && i in s.sites && EditOf(s, i, op)
    ensures Inv(System(s.sites[i := Edited(s.sites[i], op)], s.sent + {op}, s.snaps, s.edits + 1))
  {
    EditSiteOk(s, i, op);
    EditSent(s, i, op);
    EditClock(s, i, op);
    InvAfter(s, i, Edited(s.sites[i], op), s.sent + {op}, s.edits + 1);
  }

  lemma InsertKeeps(s: System, step: Step)
    requires Inv(s) && Enabled(s, step) && step.Insert?
    ensures Inv(Do(s, step))
  {
    InsertIsFresh(s, step);
    EditKeeps(s, step.site, EditOp(s, step));
  }

  lemma DeleteIsEdit(s: System, step: Step)
    requires Inv(s) && Enabled(s, step) && step.Delete?
    ensures EditOf(s, step.site, EditOp(s, step))
  {
    assert SiteOk(s.sent, s.edits, step.site, s.sites[step.site]);
    LocalDeleteShows(ContentAt(s, step.site), step.at);
  }

  lemma DeleteKeeps(s: System, step: Step)
    requires Inv(s) && Enabled(s, step) && step.Delete?
    ensures Inv(Do(s, step))
  {
    DeleteIsEdit(s, step);
    EditKeeps(s, step.site, EditOp(s, step));
  }

  lemma DeliverAccounts(s: System, step: Step)
    requires Inv(s) && Possible(s, step) && step.Deliver? && !s.sites[step.site].syncing
    ensures var x' := Delivered(s.sites[step.site], step.op);
            && Accounts(x'.kept, x'.peer) && x'.kept <= s.sent && ReplicaOk(s.sent, s.edits, x'.peer.replica)
            && s.sites[step.site].peer.replica.clock <= x'.peer.replica.clock
  {
    var op, x := step.op, s.sites[step.site];
    var x' := Delivered(x, op);
    assert SiteOk(s.sent, s.edits, step.site, x);
    ConsistentSubset(x.kept + {op}, s.sent);
    ReceiveKeeps(x.kept, x.peer, op);
    ReceiveClock(x.peer, op, 2 * s.edits);
    ReceiveGrows(x.peer, op);
    OpsOfExplained(x'.kept, x'.peer.replica.content, x'.peer.pending, s.sent);
  }

  lemma DeliverKeeps(s: System, step: Step)
    requires Inv(s) && Possible(s, step) && step.Deliver?
    ensures Inv(Do(s, step))
  {
    var i, op := step.site, step.op;
    var x := s.sites[i];
    var x' := Delivered(x, op);
    assert SiteOk(s.sent, s.edits, i, x);
    if x.syncing {
      assert SetOf(x'.buffer) == SetOf(x.buffer) + {op};
    } else {
      DeliverAccounts(s, step);
    }
    InvAfter(s, i, x', s.sent, s.edits);
  }

  lemma DoLoad(s: System, step: Step)
    requires Possible(s, step) && step.Load?
    ensures var x' := Loaded(s.sites[step.site], step.snap);
            Do(s, step) == System(s.sites[step.site := x'], s.sent, s.snaps, s.edits)
  {
  }

  lemma LoadJoinable(s: System, step: Step)
    requires Inv(s) && Possible(s, step) && step.Load?
    ensures var x := s.sites[step.site];
            && Joinable(step.snap.content, x.peer.pending, x.buffer)
            && Sources(step.snap.content, x.peer.pending, x.buffer) <= s.sent
            && SENTINEL_ID !in x.peer.replica.content
  {
    var x := s.sites[step.site];
    assert SiteOk(s.sent, s.edits, step.site, x) && ReplicaOk(s.sent, s.edits, step.snap);
    assert SetOf(x.peer.pending) <= x.kept;
    ConsistentSubset(Sources(step.snap.content, x.peer.pending, x.buffer), s.sent);
  }

  lemma LoadAccounts(s: System, step: Step)
    requires Inv(s) && Possible(s, step) && step.Load?
    ensures var x' := Loaded(s.sites[step.site], step.snap);
            && Accounts(x'.kept, x'.peer) && x'.kept <= s.sent && ReplicaOk(s.sent, s.edits, x'.peer.replica)
            && step.snap.clock <= x'.peer.replica.clock
  {
    var i, snap := step.site, step.snap;
    var x := s.sites[i];
    var x', start := Loaded(x, snap), Peer(snap, x.peer.pending);
    assert SiteOk(s.sent, s.edits, i, x) && ReplicaOk(s.sent, s.edits, snap);
    LoadJoinable(s, step);
    SyncAccounts(snap, x.peer.pending, x.buffer);
    KeptOrDropped(start, x.buffer);
    ReceiveAllClock(start, x.buffer, 2 * s.edits);
    var q := ReceiveAll(start, x.buffer);
    DrainClock(q.replica, q.pending, 2 * s.edits);
    OpsOfExplained(x'.kept, x'.peer.replica.content, x'.peer.pending, s.sent);
  }

  /** A load that brings back what the site had accounts for all that was kept. */
  lemma LoadForgetsNothing(s: System, step: Step)
    requires Inv(s) && Possible(s, step) && step.Load? && Loaded(s.sites[step.site], step.snap).lossless
    ensures s.sites[step.site].kept <= Loaded(s.sites[step.site], step.snap).kept
  {
    var x, x' := s.sites[step.site], Loaded(s.sites[step.site], step.snap);
    var c, c' := x.peer.replica.content, x'.peer.replica.content;
    assert SiteOk(s.sent, s.edits, step.site, x);
    LoadJoinable(s, step);
    LoadAccounts(s, step);
    LoadLosesNothingIff(c, step.snap, x.peer.pending, x.buffer);
    ForgetsNothing(s.sent, x.kept, x.peer, x'.kept, x'.peer);
  }

  lemma ForgetsNothing(sent: set<Operation>, kept: set<Operation>, p: Peer, kept': set<Operation>, p': Peer)
    requires Consistent(sent) && Causal(sent) && kept <= sent && kept' <= sent
    requires Accounts(kept, p) && Accounts(kept', p')
    requires Grows(p.replica.content, p'.replica.content) && SetOf(p.pending) <= kept'
    ensures kept <= kept'
  {
    var c, c' := p.replica.content, p'.replica.content;
    forall op | op in kept ensures op in kept' {
      if op.kind == DELETE {
        assert DeadIn(c', op.id);
        var d :| d in kept' && d.kind == DELETE && d.id == op.id;
        assert CausalOp(sent, d) && CausalOp(sent, op);
      } else if op.id in c {
        assert InsertOp(op.id, c[op.id]) in kept && InsertOp(op.id, c'[op.id]) in kept';
      } else {
        assert op in p.pending;
      }
    }
  }

  lemma LoadHistory(s: System, step: Step)
    requires Inv(s) && Possible(s, step) && step.Load?
    ensures var x' := Loaded(s.sites[step.site], step.snap);
            && (forall op :: op in x'.missed ==> op in s.sent && op.kind == DELETE)
            && (x'.lossless ==> x'.popped <= x'.kept + x'.missed)
  {
    var x, x' := s.sites[step.site], Loaded(s.sites[step.site], step.snap);
    assert SiteOk(s.sent, s.edits, step.site, x);
    KeptOrDropped(Peer(step.snap, x.peer.pending), x.buffer);
    if x'.lossless {
      LoadForgetsNothing(s, step);
    }
  }

  lemma LoadSiteOk(s: System, step: Step)
    requires Inv(s) && Enabled(s, step) && step.Load?
    ensures SiteOk(s.sent, s.edits, step.site, Loaded(s.sites[step.site], step.snap))
  {
    LoadAccounts(s, step);
    LoadHistory(s, step);
  }

  lemma LoadKeeps(s: System, step: Step)
    requires Inv(s) && Enabled(s, step) && step.Load?
    ensures Inv(Do(s, step))
  {
    DoLoad(s, step);
    LoadSiteOk(s, step);
    InvAfter(s, step.site, Loaded(s.sites[step.site], step.snap), s.sent, s.edits);
  }

  lemma TickKeeps(s: System, step: Step)
    requires Inv(s) && Enabled(s, step) && step.DeleteNothing?
    ensures Inv(Do(s, step))
  {
    var x := s.sites[step.site];
    var r := x.peer.replica;
    assert SiteOk(s.sent, s.edits, step.site, x);
    InvAfter(s, step.site, x.(peer := x.peer.(replica := r.(clock := r.clock + 1))), s.sent, s.edits + 1);
  }

  lemma SerializeKeeps(s: System, step: Step)
    requires Inv(s) && Enabled(s, step) && step.Serialize?
    ensures Inv(Do(s, step))
  {
    assert SiteOk(s.sent, s.edits, step.site, s.sites[step.site]);
    forall r | r in Do(s, step).snaps ensures ReplicaOk(s.sent, s.edits, r) {
    }
    forall j | j in s.sites ensures SiteOk(s.sent, s.edits, j, s.sites[j]) {
    }
  }

  lemma ClearKeeps(s: System, step: Step)
    requires Inv(s) && Enabled(s, step) && (step.BeginSync? || step.AbandonSync?)
    ensures Inv(Do(s, step))
  {
    assert SiteOk(s.sent, s.edits, step.site, s.sites[step.site]);
    InvAfter(s, step.site, Cleared(s.sites[step.site], step.BeginSync?), s.sent, s.edits);
  }

  lemma StepKeepsInv(s: System, step: Step)
    requires Inv(s) && Enabled(s, step)
    ensures Inv(Do(s, step))
  {
    match step
    case Insert(_, _, _) => InsertKeeps(s, step);
    case Delete(_, _) => DeleteKeeps(s, step);
    case Deliver(_, _) => DeliverKeeps(s, step);
    case Load(_, _) => LoadKeeps(s, step);
    case DeleteNothing(_) => TickKeeps(s, step);
    case Serialize(_) => SerializeKeeps(s, step);
    case _ => ClearKeeps(s, step);
  }
}
