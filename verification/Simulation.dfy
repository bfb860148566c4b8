/** The pipeline as a site of the multi-site system: every region of the program acts on
    its peer as the corresponding step says, so what holds of all runs of the system
    holds of the program. */
module Simulation {
  import opened Types
  import opened PreOrder
  import opened Replicas
  import opened LateJoin
  import opened Engine
  import opened Pipelines
  import opened Systems
  import Codec

  /** The pipeline is in the state of its site. */
  ghost predicate Plays(p: Pipeline, s: System)
    reads p, p.crdt, p.crdt.cells, p.incoming
  {
    var i := p.crdt.siteID;
    && p.Valid() && i in s.sites
    && p.State() == s.sites[i].peer && p.syncing == s.sites[i].syncing && p.syncBuffer == s.sites[i].buffer
  }

  lemma SiteContent(p: Pipeline, s: System)
    requires Plays(p, s)
    ensures ContentAt(s, p.crdt.siteID) == p.crdt.content && ClockAt(s, p.crdt.siteID) == p.crdt.clock
    ensures p.crdt.rows == Render(p.crdt.content) && 0 <= p.crdt.clock
  {
    p.crdt.IsRendered();
  }

  /** A pipeline just started is a new site. */
  method Start(siteID: UInt32, ghost ids: set<UInt32>) returns (p: Pipeline)
    requires siteID in ids
    ensures fresh(p) && p.crdt.siteID == siteID && Plays(p, Init(ids))
  {
    var crdt := new CRDTEngine(siteID);
    p := new Pipeline(crdt);
    assert Init(ids).sites[siteID] == NEW_SITE;
  }

  /** Steps of other sites leave this one alone. */
  lemma OthersDoNotDisturb(p: Pipeline, s: System, step: Step)
    requires Plays(p, s) && Possible(s, step) && step.site != p.crdt.siteID
    ensures Plays(p, Do(s, step))
  {
  }

  method Type(p: Pipeline, ghost s: System, pos: int, c: Byte) returns (op: Operation)
    requires Plays(p, s) && p.crdt.clock < INT32_MAX
    modifies p.crdt, p.crdt.cells, p.outgoing
    ensures var step := Insert(p.crdt.siteID, pos, c);
            && Possible(s, step) && op == EditOp(s, step)
            && Plays(p, Do(s, step)) && Do(s, step).sent == s.sent + {op}
    ensures p.outgoing.q == old(p.outgoing.q) + [op]
  {
    SiteContent(p, s);
    op := p.LocalInsert(pos, c);
  }

  /** A failing delete still ticks the clock. */
  method Erase(p: Pipeline, ghost s: System, pos: int) returns (r: Result<Operation>)
    requires Plays(p, s) && p.crdt.clock < INT32_MAX
    modifies p.crdt, p.crdt.cells, p.outgoing
    ensures r.Ok? <==> 0 <= pos && Possible(s, Delete(p.crdt.siteID, pos))
    ensures r.Ok? ==>
              var step := Delete(p.crdt.siteID, pos);
              && r.value == EditOp(s, step) && Plays(p, Do(s, step)) && Do(s, step).sent == s.sent + {r.value}
              && p.outgoing.q == old(p.outgoing.q) + [r.value]
    ensures r.Err? ==>
              && Possible(s, DeleteNothing(p.crdt.siteID)) && Plays(p, Do(s, DeleteNothing(p.crdt.siteID)))
              && p.outgoing.q == old(p.outgoing.q)
  {
    SiteContent(p, s);
    r := p.LocalDelete(pos);
  }

  /** One turn of the consumer loop. */
  method Turn(p: Pipeline, ghost s: System) returns (toNotify: seq<Notifications.Note>)
    requires Plays(p, s) && p.incoming.q != [] && p.incoming.q[0] in s.sent
    modifies p, p.crdt, p.crdt.cells, p.incoming
    ensures var step := Deliver(p.crdt.siteID, old(p.incoming.q[0]));
            Possible(s, step) && Plays(p, Do(s, step))
    ensures p.incoming.q == old(p.incoming.q)[1..]
  {
    assert p.incoming.q[0] in p.incoming.q;
    toNotify := p.CrdtStep();
  }

  /** The frame served is that of a snapshot any joiner may load from then on. */
  method Serve(p: Pipeline, ghost s: System) returns (bytes: seq<Byte>)
    requires Plays(p, s)
    ensures var i := p.crdt.siteID;
            var t := Do(s, Serialize(i));
            && Possible(s, Serialize(i)) && Plays(p, t) && s.sites[i].peer.replica in t.snaps
            && bytes == Codec.EncodeState(Codec.Snapshot(i, p.crdt.clock, Render(ContentAt(s, i))))
  {
    SiteContent(p, s);
    bytes := p.SerializeState();
  }

  method Begin(p: Pipeline, ghost s: System)
    requires Plays(p, s)
    modifies p`syncing, p`syncBuffer
    ensures Possible(s, BeginSync(p.crdt.siteID)) && Plays(p, Do(s, BeginSync(p.crdt.siteID)))
  {
    p.BeginSync();
  }

  method Abandon(p: Pipeline, ghost s: System)
    requires Plays(p, s)
    modifies p`syncing, p`syncBuffer
    ensures Possible(s, AbandonSync(p.crdt.siteID)) && Plays(p, Do(s, AbandonSync(p.crdt.siteID)))
  {
    p.EndSync();
  }

  /** A frame some site has served can always be loaded. */
  method Join(p: Pipeline, ghost s: System, bytes: seq<Byte>,
              ghost server: UInt32, ghost clock: Int32, ghost c: Content)
    returns (r: Result<seq<Notifications.Note>>)
    requires Plays(p, s) && Inv(s) && Replica(clock, c) in s.snaps
    requires bytes == Codec.EncodeState(Codec.Snapshot(server, clock, Render(c)))
    requires 12 + 18 * |Render(c)| - 18 < 0x1_0000_0000
    modifies p, p.crdt, p.crdt.cells
    ensures var step := Load(p.crdt.siteID, Replica(clock, c));
            r.Ok? && Possible(s, step) && Plays(p, Do(s, step))
  {
    assert ReplicaOk(s.sent, s.edits, Replica(clock, c));
    SnapshotTransfers(server, clock, c);
    r := p.ConsumeState(bytes);
  }
}
