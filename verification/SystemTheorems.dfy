/** What holds in every reachable state of the multi-site system. */
module SystemTheorems {
  import opened Types
  import opened PathOrder
  import opened CanonicalOrder
  import opened PreOrder
  import opened Structure
  import opened Visible
  import opened Replicas
  import opened Delivery
  import opened LateJoin
  import opened SyncBatch
  import opened Systems

  ghost predicate Runs(s: System, steps: seq<Step>)
    decreases |steps|
  {
    steps == [] || (Enabled(s, steps[0]) && Runs(Do(s, steps[0]), steps[1..]))
  }

  ghost function Final(s: System, steps: seq<Step>): System
    requires Runs(s, steps)
    decreases |steps|
  {
    if steps == [] then s else Final(Do(s, steps[0]), steps[1..])
  }

  // --- safety over all runs -----------------------------------------------------------

  lemma InitInv(ids: set<UInt32>)
    ensures Inv(Init(ids))
  {
    var s := Init(ids);
    assert Rooted(EMPTY.content);
    assert OpsOf(EMPTY.content) == {};
    forall i | i in s.sites ensures SiteOk(s.sent, s.edits, i, s.sites[i]) {
      assert s.sites[i] == NEW_SITE;
    }
  }

  lemma {:induction false} RunKeepsInv(s: System, steps: seq<Step>)
    requires Inv(s) && Runs(s, steps)
    ensures Inv(Final(s, steps))
    decreases |steps|
  {
    if steps != [] {
      StepKeepsInv(s, steps[0]);
      RunKeepsInv(Do(s, steps[0]), steps[1..]);
    }
  }

  /** Every run from the start keeps the invariant: identities are unique, left
      neighbours precede what names them, clocks cover what is integrated. */
  lemma RunsAreSafe(ids: set<UInt32>, steps: seq<Step>)
    requires Runs(Init(ids), steps)
    ensures Inv(Final(Init(ids), steps))
  {
    InitInv(ids);
    RunKeepsInv(Init(ids), steps);
  }

  /** Some step of the run is a local edit that broadcasts `op`. */
  ghost predicate SentIn(s: System, steps: seq<Step>, op: Operation)
    requires Runs(s, steps)
    decreases |steps|
  {
    steps != [] &&
    (|| ((steps[0].Insert? || steps[0].Delete?) && op == EditOp(s, steps[0]))
     || SentIn(Do(s, steps[0]), steps[1..], op))
  }

  /** Some step of the run serializes the state `snap` of a site. */
  ghost predicate ServedIn(s: System, steps: seq<Step>, snap: Replica)
    requires Runs(s, steps)
    decreases |steps|
  {
    steps != [] &&
    (|| (steps[0].Serialize? && snap == s.sites[steps[0].site].peer.replica)
     || ServedIn(Do(s, steps[0]), steps[1..], snap))
  }

  lemma {:induction false} RunSends(s: System, steps: seq<Step>, op: Operation, snap: Replica)
    requires Runs(s, steps)
    ensures op in Final(s, steps).sent <==> op in s.sent || SentIn(s, steps, op)
    ensures snap in Final(s, steps).snaps <==> snap in s.snaps || ServedIn(s, steps, snap)
    decreases |steps|
  {
    if steps != [] {
      RunSends(Do(s, steps[0]), steps[1..], op, snap);
    }
  }

  /** The network carries what was edited in the run and nothing else, and a joiner can
      load what was serialized and nothing else. */
  lemma NetworkIs(ids: set<UInt32>, steps: seq<Step>, op: Operation, snap: Replica)
    requires Runs(Init(ids), steps)
    ensures op in Final(Init(ids), steps).sent <==> SentIn(Init(ids), steps, op)
    ensures snap in Final(Init(ids), steps).snaps <==> ServedIn(Init(ids), steps, snap)
  {
    RunSends(Init(ids), steps, op, snap);
  }

  predicate IsEdit(step: Step) {
    step.Insert? || step.Delete? || step.DeleteNothing?
  }

  /** How many steps of the run are local edits, those that fail included. */
  function EditCount(steps: seq<Step>): nat {
    if steps == [] then 0 else (if IsEdit(steps[0]) then 1 else 0) + EditCount(steps[1..])
  }

  lemma {:induction false} EditsCounted(s: System, steps: seq<Step>)
    requires Runs(s, steps)
    ensures Final(s, steps).edits == s.edits + EditCount(steps)
    decreases |steps|
  {
    if steps != [] {
      EditsCounted(Do(s, steps[0]), steps[1..]);
    }
  }

  /** Fewer than 2^30 edits leave every clock below the 32-bit limit, so the guards
      of `Possible` on clocks exclude nothing. */
  lemma ClocksDoNotOverflow(ids: set<UInt32>, steps: seq<Step>)
    requires Runs(Init(ids), steps) && EditCount(steps) < 0x4000_0000
    ensures var s := Final(Init(ids), steps);
            && (forall i :: i in s.sites ==> 0 <= ClockAt(s, i) < INT32_MAX)
            && (forall op :: op in s.sent ==> op.id.clock < INT32_MAX)
  {
    RunsAreSafe(ids, steps);
    EditsCounted(Init(ids), steps);
    FewEditsFit(Final(Init(ids), steps));
  }

  lemma FewEditsFit(s: System)
    requires Inv(s) && s.edits < 0x4000_0000
    ensures forall i :: i in s.sites ==> 0 <= ClockAt(s, i) < INT32_MAX
    ensures forall op :: op in s.sent ==> op.id.clock < INT32_MAX
  {
    forall i | i in s.sites ensures 0 <= ClockAt(s, i) < INT32_MAX {
      assert SiteOk(s.sent, s.edits, i, s.sites[i]);
    }
  }

  /** At every site of every reachable state the integrated inserts are exactly the
      kept ones whose whole chain was kept; exactly the others are pending, nothing
      pending is applicable, and the dead characters are those with a kept delete. */
  lemma ReadinessIsExact(ids: set<UInt32>, steps: seq<Step>, i: UInt32)
    requires Runs(Init(ids), steps) && i in Final(Init(ids), steps).sites
    ensures var x := Final(Init(ids), steps).sites[i];
            && (forall id :: Known(x.peer.replica.content, id) <==> Ready(x.kept, id))
            && (forall op :: op in x.peer.pending <==> op in x.kept && op.kind == INSERT && !Ready(x.kept, op.id))
            && Settled(x.peer.replica.content, x.peer.pending)
            && (forall id :: DeadIn(x.peer.replica.content, id) <==> Deletes(x.kept, id))
  {
    var s := Final(Init(ids), steps);
    var x := s.sites[i];
    RunsAreSafe(ids, steps);
    assert SiteOk(s.sent, s.edits, i, x);
    ConsistentSubset(x.kept, s.sent);
    ExactReadiness(x.kept, x.peer);
    forall id ensures DeadIn(x.peer.replica.content, id) <==> Deletes(x.kept, id) {
      AccountedDeletes(x.kept, x.peer, id);
    }
  }

  // --- deletes that overtake their target -------------------------------------------------

  /** In this step site `i` processes the delete `op` while its target is absent. */
  ghost predicate MissesIn(s: System, step: Step, i: UInt32, op: Operation)
    requires Possible(s, step)
  {
    step.site == i &&
    match step
    case Deliver(_, d) => d == op && !s.sites[i].syncing && Misses(ContentAt(s, i), op)
    case Load(_, snap) =>
      op.kind == DELETE && MissesTarget(snap.content, s.sites[i].peer.pending, s.sites[i].buffer, op)
    case _ => false
  }

  /** In some step of the run it does. */
  ghost predicate Overtakes(s: System, steps: seq<Step>, i: UInt32, op: Operation)
    requires Runs(s, steps)
    decreases |steps|
  {
    steps != [] && (MissesIn(s, steps[0], i, op) || Overtakes(Do(s, steps[0]), steps[1..], i, op))
  }

  /** No delete overtakes its target on the way to site `i`. */
  ghost predicate OrderlyAt(s: System, steps: seq<Step>, i: UInt32)
    requires Runs(s, steps)
  {
    forall op :: !Overtakes(s, steps, i, op)
  }

  lemma StepMisses(s: System, step: Step, i: UInt32, op: Operation)
    requires Inv(s) && Enabled(s, step) && i in s.sites
    ensures op in Do(s, step).sites[i].missed <==> op in s.sites[i].missed || MissesIn(s, step, i, op)
  {
    var x := s.sites[i];
    if step.Load? && step.site == i {
      LoadJoinable(s, step);
      KeptOrDropped(Peer(step.snap, x.peer.pending), x.buffer);
      if op.kind == DELETE {
        FatesOfDeletes(step.snap, x.peer.pending, x.buffer, op);
      }
    }
  }

  lemma {:induction false} RunMisses(s: System, steps: seq<Step>, i: UInt32, op: Operation)
    requires Inv(s) && Runs(s, steps) && i in s.sites
    ensures i in Final(s, steps).sites
    ensures op in Final(s, steps).sites[i].missed <==> op in s.sites[i].missed || Overtakes(s, steps, i, op)
    decreases |steps|
  {
    if steps != [] {
      StepMisses(s, steps[0], i, op);
      StepKeepsInv(s, steps[0]);
      RunMisses(Do(s, steps[0]), steps[1..], i, op);
    }
  }

  lemma MissedIs(ids: set<UInt32>, steps: seq<Step>, i: UInt32)
    requires Runs(Init(ids), steps) && i in Final(Init(ids), steps).sites
    ensures forall op :: op in Final(Init(ids), steps).sites[i].missed <==> Overtakes(Init(ids), steps, i, op)
    ensures OrderlyAt(Init(ids), steps, i) <==> Final(Init(ids), steps).sites[i].missed == {}
  {
    InitInv(ids);
    SitesStay(Init(ids), steps, i);
    assert Init(ids).sites[i] == NEW_SITE;
    forall op ensures op in Final(Init(ids), steps).sites[i].missed <==> Overtakes(Init(ids), steps, i, op) {
      RunMisses(Init(ids), steps, i, op);
    }
  }

  lemma {:induction false} SitesStay(s: System, steps: seq<Step>, i: UInt32)
    requires Runs(s, steps)
    ensures i in s.sites <==> i in Final(s, steps).sites
    decreases |steps|
  {
    if steps != [] {
      SitesStay(Do(s, steps[0]), steps[1..], i);
    }
  }

  // --- conservation -----------------------------------------------------------------------

  /** A load at site `i` brings back what the site had. */
  ghost predicate LosesNothing(s: System, step: Step, i: UInt32)
    requires Possible(s, step)
  {
    step.Load? && step.site == i ==>
      BringsBack(ContentAt(s, i), step.snap.content, s.sites[i].peer.pending, s.sites[i].buffer)
  }

  ghost predicate LosesNothingAt(s: System, steps: seq<Step>, i: UInt32)
    requires Runs(s, steps)
    decreases |steps|
  {
    steps == [] || (LosesNothing(s, steps[0], i) && LosesNothingAt(Do(s, steps[0]), steps[1..], i))
  }

  /** In this step site `i` gives nothing up: a load brings back what it had, and a
      transfer starts or fails with nothing buffered. */
  ghost predicate Lossless(s: System, step: Step, i: UInt32)
    requires Possible(s, step)
  {
    && LosesNothing(s, step, i)
    && (step.site == i && (step.BeginSync? || step.AbandonSync?) ==> s.sites[i].buffer == [])
  }

  ghost predicate LosslessAt(s: System, steps: seq<Step>, i: UInt32)
    requires Runs(s, steps)
    decreases |steps|
  {
    steps == [] || (Lossless(s, steps[0], i) && LosslessAt(Do(s, steps[0]), steps[1..], i))
  }

  /** The history kept at a site is that of the run. */
  lemma {:induction false} RunHistory(s: System, steps: seq<Step>, i: UInt32, op: Operation)
    requires Runs(s, steps) && i in s.sites
    ensures i in Final(s, steps).sites
    ensures op in Final(s, steps).sites[i].popped <==> op in s.sites[i].popped || Deliver(i, op) in steps
    ensures Final(s, steps).sites[i].lossless <==> s.sites[i].lossless && LosslessAt(s, steps, i)
    decreases |steps|
  {
    if steps != [] {
      assert steps == [steps[0]] + steps[1..];
      RunHistory(Do(s, steps[0]), steps[1..], i, op);
    }
  }

  /** Conservation: in a run where no transfer dropped its buffer and no load gave
      anything up at a site, every operation delivered to it still waits in the buffer,
      or is an insert integrated as it was sent or pending, or a delete whose target is
      tombstoned or was absent in the step that processed it. */
  lemma NothingIsLost(ids: set<UInt32>, steps: seq<Step>, i: UInt32, op: Operation)
    requires Runs(Init(ids), steps) && i in Final(Init(ids), steps).sites
    requires Deliver(i, op) in steps && LosslessAt(Init(ids), steps, i)
    ensures var x := Final(Init(ids), steps).sites[i];
            var c := x.peer.replica.content;
            || op in x.buffer
            || (op.kind == INSERT && (op in x.peer.pending || (op.id in c && InsertOp(op.id, c[op.id]) == op)))
            || (op.kind == DELETE && (DeadIn(c, op.id) || Overtakes(Init(ids), steps, i, op)))
  {
    var s := Final(Init(ids), steps);
    var x := s.sites[i];
    RunsAreSafe(ids, steps);
    SitesStay(Init(ids), steps, i);
    assert Init(ids).sites[i] == NEW_SITE;
    RunHistory(Init(ids), steps, i, op);
    MissedIs(ids, steps, i);
    assert SiteOk(s.sent, s.edits, i, x);
    assert op in x.kept + x.missed + SetOf(x.buffer);
    if op.kind == INSERT && op.id in x.peer.replica.content {
      assert InsertOp(op.id, x.peer.replica.content[op.id]) in s.sent && op in s.sent;
    }
  }

  // --- growth ---------------------------------------------------------------------------

  lemma EditGrows(x: Site, op: Operation)
    ensures Grows(x.peer.replica.content, Edited(x, op).peer.replica.content)
  {
  }

  lemma DeliveryGrows(x: Site, op: Operation)
    requires Rooted(x.peer.replica.content)
    ensures Grows(x.peer.replica.content, Delivered(x, op).peer.replica.content)
  {
    ReceiveGrows(x.peer, op);
  }

  lemma LoadGrowsIff(s: System, step: Step)
    requires Inv(s) && Enabled(s, step) && step.Load?
    ensures Grows(ContentAt(s, step.site), ContentAt(Do(s, step), step.site)) <==> LosesNothing(s, step, step.site)
  {
    var x := s.sites[step.site];
    DoLoad(s, step);
    LoadJoinable(s, step);
    LoadLosesNothingIff(x.peer.replica.content, step.snap, x.peer.pending, x.buffer);
  }

  /** A step loses nothing at a site exactly when it is no load there, or one that
      brings everything back. */
  lemma StepGrowsIff(s: System, step: Step, i: UInt32)
    requires Inv(s) && Enabled(s, step) && i in s.sites
    ensures i in Do(s, step).sites
    ensures Grows(ContentAt(s, i), ContentAt(Do(s, step), i)) <==> LosesNothing(s, step, i)
  {
    assert SiteOk(s.sent, s.edits, i, s.sites[i]);
    if i == step.site {
      match step
      case Insert(_, _, _) => EditGrows(s.sites[i], EditOp(s, step));
      case Delete(_, _) => EditGrows(s.sites[i], EditOp(s, step));
      case Deliver(_, op) => DeliveryGrows(s.sites[i], op);
      case Load(_, snap) => LoadGrowsIff(s, step);
      case _ =>
    }
  }

  /** Over any run whose loads bring back what the site had, the sequence only grows:
      the old characters keep their order, values and left neighbours, and no tombstone
      is undone. */
  lemma RunGrows(s: System, steps: seq<Step>, i: UInt32)
    requires Inv(s) && Runs(s, steps) && i in s.sites && LosesNothingAt(s, steps, i)
    ensures i in Final(s, steps).sites && Grows(ContentAt(s, i), ContentAt(Final(s, steps), i))
    ensures Restrict(Ids(Render(ContentAt(Final(s, steps), i))), ContentAt(s, i)) == Ids(Render(ContentAt(s, i)))
  {
    RunGrowsContent(s, steps, i);
    RunKeepsInv(s, steps);
    var t := Final(s, steps);
    assert SiteOk(s.sent, s.edits, i, s.sites[i]);
    assert SiteOk(t.sent, t.edits, i, t.sites[i]);
    RenderCanonical(ContentAt(s, i));
    RenderCanonical(ContentAt(t, i));
    OrderOnlyGrows(ContentAt(s, i), ContentAt(t, i), Render(ContentAt(s, i)), Render(ContentAt(t, i)));
  }

  lemma {:induction false} RunGrowsContent(s: System, steps: seq<Step>, i: UInt32)
    requires Inv(s) && Runs(s, steps) && i in s.sites && LosesNothingAt(s, steps, i)
    ensures i in Final(s, steps).sites && Grows(ContentAt(s, i), ContentAt(Final(s, steps), i))
    decreases |steps|
  {
    if steps != [] {
      var s' := Do(s, steps[0]);
      StepKeepsInv(s, steps[0]);
      StepGrowsIff(s, steps[0], i);
      RunGrowsContent(s', steps[1..], i);
      GrowsTransitive(ContentAt(s, i), ContentAt(s', i), ContentAt(Final(s, steps), i));
    }
  }

  // --- convergence ------------------------------------------------------------------------

  /** What a site has processed: the operations its state is built from, which a load
      replaces, and the deletes it has ever missed. */
  ghost function Processed(x: Site): set<Operation> {
    x.kept + x.missed
  }

  /** How that set moves: an edit or a delivery adds its operation, whatever its fate; a
      load leaves what snapshot, queue and buffer hold and the deletes missed before. */
  lemma StepProcesses(s: System, step: Step, i: UInt32, op: Operation)
    requires Possible(s, step) && i in s.sites
    ensures var x, x' := s.sites[i], Do(s, step).sites[i];
            op in Processed(x') <==>
              if step.Load? && step.site == i
              then op in Sources(step.snap.content, x.peer.pending, x.buffer) || op in x.missed
              else || op in Processed(x)
                   || (step.site == i && (step.Insert? || step.Delete?) && op == EditOp(s, step))
                   || (step == Deliver(i, op) && !x.syncing)
  {
    if step.Load? && step.site == i {
      KeptOrDropped(Peer(step.snap, s.sites[i].peer.pending), s.sites[i].buffer);
    }
  }

  lemma ProcessedExplains(s: System, i: UInt32)
    requires Inv(s) && i in s.sites
    ensures Explains(Processed(s.sites[i]), s.sites[i].peer) && Consistent(Processed(s.sites[i]))
    ensures Rooted(ContentAt(s, i))
    ensures forall id :: DeadIn(ContentAt(s, i), id) <==> Deletes(s.sites[i].kept, id)
  {
    var x := s.sites[i];
    assert SiteOk(s.sent, s.edits, i, x);
    ExplainsMore(x.kept, Processed(x), x.peer);
    ConsistentSubset(Processed(x), s.sent);
    forall id ensures DeadIn(ContentAt(s, i), id) <==> Deletes(x.kept, id) {
      AccountedDeletes(x.kept, x.peer, id);
    }
  }

  /** Convergence of the system: in every run, two sites that have processed the same
      operations integrated the same characters in the same order, and show the same
      sequence exactly when the same deletes met their target at both; so they do when
      no delete overtook its target on the way to either. */
  lemma SitesConverge(ids: set<UInt32>, steps: seq<Step>, i: UInt32, j: UInt32)
    requires Runs(Init(ids), steps)
    requires var s := Final(Init(ids), steps);
             i in s.sites && j in s.sites && Processed(s.sites[i]) == Processed(s.sites[j])
    ensures var s := Final(Init(ids), steps);
            && SameInserts(ContentAt(s, i), ContentAt(s, j))
            && Ids(Render(ContentAt(s, i))) == Ids(Render(ContentAt(s, j)))
            && (Render(ContentAt(s, i)) == Render(ContentAt(s, j)) <==>
                forall id :: id != SENTINEL_ID ==> (Deletes(s.sites[i].kept, id) <==> Deletes(s.sites[j].kept, id)))
            && (OrderlyAt(Init(ids), steps, i) && OrderlyAt(Init(ids), steps, j) ==>
                  Render(ContentAt(s, i)) == Render(ContentAt(s, j)))
  {
    var s := Final(Init(ids), steps);
    var c, c' := ContentAt(s, i), ContentAt(s, j);
    RunsAreSafe(ids, steps);
    ProcessedExplains(s, i);
    ProcessedExplains(s, j);
    ExplainedAlike(Processed(s.sites[i]), s.sites[i].peer, s.sites[j].peer);
    SameInsertsSameOrder(c, c');
    SameDeadSame(c, c');
    RenderInjective(c, c');
    MissedIs(ids, steps, i);
    MissedIs(ids, steps, j);
  }

  lemma SameInsertsSameOrder(c: Content, c': Content)
    requires Rooted(c) && Rooted(c') && SameInserts(c, c')
    ensures Ids(Render(c)) == Ids(Render(c'))
  {
    RenderCanonical(c);
    RenderCanonical(c');
    OrderOnlyGrows(c, c', Render(c), Render(c'));
    RestrictAll(Ids(Render(c')), c);
  }

  lemma {:induction false} RestrictAll(s: seq<CharID>, c: Content)
    requires forall id :: id in s ==> Known(c, id)
    ensures Restrict(s, c) == s
  {
    if s != [] {
      assert s == [s[0]] + s[1..];
      RestrictAll(s[1..], c);
    }
  }

  // --- runs of typing -------------------------------------------------------------------------

  lemma SitesRooted(s: System, i: UInt32)
    requires Inv(s) && i in s.sites
    ensures Rooted(ContentAt(s, i)) && ClockCovers(ClockAt(s, i), ContentAt(s, i))
  {
    assert SiteOk(s.sent, s.edits, i, s.sites[i]);
  }

  /** Characters typed one after the other at one anchor by two different sites stay
      apart at every site, in every reachable state. */
  lemma TypingNeverInterleaves(ids: set<UInt32>, steps: seq<Step>, at: UInt32, anchor: CharID,
                               a: seq<CharID>, b: seq<CharID>)
    requires Runs(Init(ids), steps) && at in Final(Init(ids), steps).sites
    requires var c := ContentAt(Final(Init(ids), steps), at);
             IsRun(c, anchor, a) && IsRun(c, anchor, b) && a[0].siteID != b[0].siteID
    ensures var rows := Render(ContentAt(Final(Init(ids), steps), at));
            && (forall i, j :: 0 <= i < |rows| && 0 <= j < |rows| && rows[i].id in a && rows[j].id in b ==>
                  (i < j <==> a[0].clock > b[0].clock ||
                              (a[0].clock == b[0].clock && a[0].siteID > b[0].siteID)))
  {
    var c := ContentAt(Final(Init(ids), steps), at);
    RunsAreSafe(ids, steps);
    SitesRooted(Final(Init(ids), steps), at);
    RenderCanonical(c);
    RunsNeverInterleave(c, Render(c), anchor, a, b);
  }

  // --- local intention ------------------------------------------------------------------------

  lemma TypingShows(s: System, step: Step)
    requires Inv(s) && Possible(s, step) && step.Insert?
    ensures var c, t, op, pos := ContentAt(s, step.site), Do(s, step), EditOp(s, step), step.pos;
            var rows, before, after := Render(c), Text(Render(c)), Text(Render(ContentAt(t, step.site)));
            && t.sent == s.sent + {op} && op.kind == INSERT && op.value == step.value
            && op.id == CharID(ClockAt(s, step.site) + 1, step.site)
            && (if 0 < pos <= |before|
                then op.left in c && !c[op.left].dead && Offset(rows, op.left) == pos - 1
                else op.left == SENTINEL_ID)
            && after == if 0 <= pos <= |before| then before[..pos] + [step.value] + before[pos..]
                        else [step.value] + before
  {
    SitesRooted(s, step.site);
    LocalInsertShows(s.sites[step.site].peer.replica, step.site, step.pos, step.value);
  }

  lemma ErasingShows(s: System, step: Step)
    requires Inv(s) && Possible(s, step) && step.Delete?
    ensures var c, t, op, pos := ContentAt(s, step.site), Do(s, step), EditOp(s, step), step.at;
            var rows, before, after := Render(c), Text(Render(c)), Text(Render(ContentAt(t, step.site)));
            && t.sent == s.sent + {op} && op == Operation(DELETE, op.id, SENTINEL_ID, 0)
            && op.id in c && !c[op.id].dead && Offset(rows, op.id) == pos
            && pos < |before| && after == before[..pos] + before[pos + 1..]
  {
    SitesRooted(s, step.site);
    LocalDeleteShows(ContentAt(s, step.site), step.at);
  }

  /** Wherever and whenever a user types, the operation sent names the character seen
      left of the position, and the new one appears exactly there; a delete removes
      exactly the character at its position. */
  lemma EditsShow(ids: set<UInt32>, steps: seq<Step>, step: Step)
    requires Runs(Init(ids), steps) && Enabled(Final(Init(ids), steps), step)
    ensures var s := Final(Init(ids), steps);
            var c, t := ContentAt(s, step.site), Do(s, step);
            var rows, before, after := Render(c), Text(Render(c)), Text(Render(ContentAt(t, step.site)));
            && (step.Insert? ==>
                  var op, pos := EditOp(s, step), step.pos;
                  && t.sent == s.sent + {op} && op.kind == INSERT && op.value == step.value
                  && op.id == CharID(ClockAt(s, step.site) + 1, step.site)
                  && (if 0 < pos <= |before|
                      then op.left in c && !c[op.left].dead && Offset(rows, op.left) == pos - 1
                      else op.left == SENTINEL_ID)
                  && after == if 0 <= pos <= |before| then before[..pos] + [step.value] + before[pos..]
                              else [step.value] + before)
            && (step.Delete? ==>
                  var op, pos := EditOp(s, step), step.at;
                  && t.sent == s.sent + {op} && op == Operation(DELETE, op.id, SENTINEL_ID, 0)
                  && op.id in c && !c[op.id].dead && Offset(rows, op.id) == pos
                  && pos < |before| && after == before[..pos] + before[pos + 1..])
  {
    RunsAreSafe(ids, steps);
    match step
    case Insert(_, _, _) => TypingShows(Final(Init(ids), steps), step);
    case Delete(_, _) => ErasingShows(Final(Init(ids), steps), step);
    case _ =>
  }

  // --- what a joiner gets ---------------------------------------------------------------------

  lemma {:induction false} SnapsStay(s: System, steps: seq<Step>, snap: Replica)
    requires Runs(s, steps) && snap in s.snaps
    ensures snap in Final(s, steps).snaps
    decreases |steps|
  {
    if steps != [] {
      SnapsStay(Do(s, steps[0]), steps[1..], snap);
    }
  }

  /** Whenever a site serializes, any site can at any later time load the state it had
      then, and holds all of it afterwards; with nothing waiting it shows the same text. */
  lemma ServedStateArrives(s: System, server: UInt32, between: seq<Step>, i: UInt32)
    requires Inv(s) && server in s.sites && i in s.sites && Runs(Do(s, Serialize(server)), between)
    ensures var t, snap := Final(Do(s, Serialize(server)), between), s.sites[server].peer.replica;
            && Possible(t, Load(i, snap))
            && var u := Do(t, Load(i, snap));
               && Grows(ContentAt(s, server), ContentAt(u, i)) && ClockAt(s, server) <= ClockAt(u, i)
               && (t.sites[i].peer.pending == t.sites[i].buffer == [] ==>
                     && Render(ContentAt(u, i)) == Render(ContentAt(s, server))
                     && Text(Render(ContentAt(u, i))) == Text(Render(ContentAt(s, server))))
  {
    var s1, snap := Do(s, Serialize(server)), s.sites[server].peer.replica;
    var t := Final(s1, between);
    StepKeepsInv(s, Serialize(server));
    RunKeepsInv(s1, between);
    SnapsStay(s1, between, snap);
    SitesStay(s1, between, i);
    LoadArrives(t, Load(i, snap));
  }

  lemma LoadArrives(t: System, step: Step)
    requires Inv(t) && Possible(t, step) && step.Load?
    ensures var u := Do(t, step);
            && Grows(step.snap.content, ContentAt(u, step.site)) && step.snap.clock <= ClockAt(u, step.site)
            && (t.sites[step.site].peer.pending == t.sites[step.site].buffer == [] ==>
                  ContentAt(u, step.site) == step.snap.content)
  {
    var x := t.sites[step.site];
    DoLoad(t, step);
    LoadJoinable(t, step);
    SyncAccounts(step.snap, x.peer.pending, x.buffer);
    if x.peer.pending == x.buffer == [] {
      assert Pass(step.snap, []) == Drained(step.snap, [], []);
    }
  }

  // --- identities across a load -----------------------------------------------------------------

  /** Local edits of site `i` only. */
  predicate EditsOf(i: UInt32, steps: seq<Step>) {
    forall step :: step in steps ==> step.site == i && (step.Insert? || step.Delete? || step.DeleteNothing?)
  }

  /** After `steps` the next character typed at site `i` gets an identity from `used`. */
  ghost predicate ReusesAfter(used: set<Operation>, s: System, i: UInt32, steps: seq<Step>) {
    && EditsOf(i, steps) && Runs(s, steps)
    && var typed := Insert(i, 0, 0);
       Possible(Final(s, steps), typed) && IsInserted(used, EditOp(Final(s, steps), typed).id)
  }

  /** Every local edit ticks the clock once. */
  lemma {:induction false} EditsTick(s: System, i: UInt32, steps: seq<Step>)
    requires i in s.sites && EditsOf(i, steps) && Runs(s, steps)
    ensures i in Final(s, steps).sites && ClockAt(Final(s, steps), i) == ClockAt(s, i) + |steps|
    decreases |steps|
  {
    if steps != [] {
      assert steps == [steps[0]] + steps[1..];
      EditsTick(Do(s, steps[0]), i, steps[1..]);
    }
  }

  function Typing(i: UInt32, n: nat): (steps: seq<Step>)
    ensures |steps| == n && forall k :: 0 <= k < n ==> steps[k] == Insert(i, 0, 0)
  {
    seq(n, k requires 0 <= k < n => Insert(i, 0, 0))
  }

  lemma TypeTicks(s: System, i: UInt32)
    requires i in s.sites && 0 <= ClockAt(s, i) < INT32_MAX
    ensures Enabled(s, Insert(i, 0, 0))
    ensures i in Do(s, Insert(i, 0, 0)).sites && ClockAt(Do(s, Insert(i, 0, 0)), i) == ClockAt(s, i) + 1
  {
  }

  lemma {:induction false} CanType(s: System, i: UInt32, n: nat)
    requires i in s.sites && 0 <= ClockAt(s, i) && ClockAt(s, i) + n <= INT32_MAX
    ensures Runs(s, Typing(i, n))
    decreases n
  {
    if n > 0 {
      assert Typing(i, n)[1..] == Typing(i, n - 1);
      TypeTicks(s, i);
      CanType(Do(s, Insert(i, 0, 0)), i, n - 1);
    }
  }

  lemma TypesUsedId(used: set<Operation>, s: System, i: UInt32, op: Operation)
    requires i in s.sites && 0 <= ClockAt(s, i) && op in used && op.kind == INSERT
    requires op.id.siteID == i && op.id.clock > ClockAt(s, i)
    ensures exists steps :: ReusesAfter(used, s, i, steps)
  {
    var steps := Typing(i, op.id.clock - 1 - ClockAt(s, i));
    CanType(s, i, |steps|);
    EditsTick(s, i, steps);
    assert EditOp(Final(s, steps), Insert(i, 0, 0)).id == op.id;
    assert ReusesAfter(used, s, i, steps);
  }

  /** Some continuation of local edits hands out a used identity exactly when an insert
      of the site is newer than its clock. */
  lemma ReuseIff(used: set<Operation>, s: System, i: UInt32)
    requires i in s.sites && 0 <= ClockAt(s, i)
    ensures (exists steps :: ReusesAfter(used, s, i, steps)) <==> !OwnUpTo(used, i, ClockAt(s, i))
  {
    if OwnUpTo(used, i, ClockAt(s, i)) {
      forall steps ensures !ReusesAfter(used, s, i, steps) {
        if ReusesAfter(used, s, i, steps) { EditsTick(s, i, steps); }
      }
    } else {
      var op :| op in used && op.kind == INSERT && op.id.siteID == i && op.id.clock > ClockAt(s, i);
      TypesUsedId(used, s, i, op);
    }
  }

  /** Told before the load: snapshot, queue and buffer take the clock to every insert
      the joiner has made. */
  ghost predicate CoversOwn(s: System, step: Step)
    requires Possible(s, step) && step.Load?
  {
    var x := s.sites[step.site];
    forall op :: op in s.sent && op.kind == INSERT && op.id.siteID == step.site ==>
      ClockReaches(step.snap, x.peer.pending, x.buffer, op.id.clock)
  }

  lemma CoversOwnIff(s: System, step: Step)
    requires Inv(s) && Possible(s, step) && step.Load?
    ensures Enabled(s, step) <==> CoversOwn(s, step)
  {
    var x := s.sites[step.site];
    LoadJoinable(s, step);
    forall op | op in s.sent && op.kind == INSERT && op.id.siteID == step.site
      ensures op.id.clock <= Loaded(x, step.snap).peer.replica.clock
         <==> ClockReaches(step.snap, x.peer.pending, x.buffer, op.id.clock)
    {
      ClockAfterSync(step.snap, x.peer.pending, x.buffer, op.id.clock);
    }
  }

  /** The hypothesis on loads is exact: the joiner can go on without ever handing out
      an identity twice exactly when snapshot, queue and buffer take its clock to its own
      newest insert. */
  lemma LoadReusesIff(s: System, step: Step)
    requires Inv(s) && Possible(s, step) && step.Load?
    ensures (exists steps :: ReusesAfter(s.sent, Do(s, step), step.site, steps)) <==> !CoversOwn(s, step)
    ensures Enabled(s, step) <==> CoversOwn(s, step)
  {
    assert ReplicaOk(s.sent, s.edits, step.snap);
    LoadAccounts(s, step);
    ReuseIff(s.sent, Do(s, step), step.site);
    CoversOwnIff(s, step);
  }

  /** A check before the load: a snapshot whose clock is not behind the newest insert of
      the joiner is safe; so is one not behind the joiner's clock, and any snapshot for a
      site that has typed nothing yet. */
  lemma FreshSnapshotIsSafe(s: System, step: Step)
    requires Inv(s) && Possible(s, step) && step.Load?
    ensures OwnUpTo(s.sent, step.site, step.snap.clock) ==> Enabled(s, step)
    ensures ClockAt(s, step.site) <= step.snap.clock ==> Enabled(s, step)
    ensures (forall op :: op in s.sent && op.kind == INSERT ==> op.id.siteID != step.site) ==> Enabled(s, step)
  {
    assert SiteOk(s.sent, s.edits, step.site, s.sites[step.site]);
    LoadAccounts(s, step);
  }

  lemma RunOfThree(s: System, a: Step, b: Step, c: Step)
    requires Enabled(s, a) && Enabled(Do(s, a), b) && Enabled(Do(Do(s, a), b), c)
    ensures Runs(s, [a, b, c]) && Final(s, [a, b, c]) == Do(Do(Do(s, a), b), c)
  {
    var s1, s2 := Do(s, a), Do(Do(s, a), b);
    assert [a, b, c][1..] == [b, c] && [b, c][1..] == [c] && [c][1..] == [];
    assert Runs(Do(s2, c), []) && Final(Do(s2, c), []) == Do(s2, c);
    assert Runs(s2, [c]) && Final(s2, [c]) == Do(s2, c);
    assert Runs(s1, [b, c]) && Final(s1, [b, c]) == Do(s2, c);
  }

  lemma FirstTyped(s: System, i: UInt32, a: Byte)
    requires i in s.sites && s.sites[i] == NEW_SITE
    ensures Enabled(s, Insert(i, 0, a))
    ensures EditOp(s, Insert(i, 0, a)) == Operation(INSERT, CharID(1, i), SENTINEL_ID, a)
  {
  }

  /** A site has typed a character, and a server that has not heard of it has serialized. */
  lemma TypedThenServed(i: UInt32, server: UInt32, a: Byte)
    requires i != server
    ensures var steps := [Insert(i, 0, a), Serialize(server), BeginSync(i)];
            && Runs(Init({i, server}), steps)
            && var s := Final(Init({i, server}), steps);
               && i in s.sites && s.sites[i].peer.pending == s.sites[i].buffer == [] && EMPTY in s.snaps
               && Operation(INSERT, CharID(1, i), SENTINEL_ID, a) in s.sent
  {
    var s0 := Init({i, server});
    assert s0.sites[i] == NEW_SITE && s0.sites[server] == NEW_SITE;
    FirstTyped(s0, i, a);
    assert Do(s0, Insert(i, 0, a)).sites[server] == NEW_SITE;
    RunOfThree(s0, Insert(i, 0, a), Serialize(server), BeginSync(i));
  }

  lemma LoadEmpty(s: System, i: UInt32)
    requires i in s.sites && s.sites[i].peer.pending == s.sites[i].buffer == [] && EMPTY in s.snaps
    ensures Possible(s, Load(i, EMPTY)) && Do(s, Load(i, EMPTY)).sites[i].peer == NEWCOMER
    ensures Do(s, Load(i, EMPTY)).sent == s.sent
  {
    assert Pass(EMPTY, []) == Drained(EMPTY, [], []);
    assert Replay(Peer(EMPTY, []), []) == Peer(EMPTY, []);
  }

  /** Typing again after such a load. */
  lemma TypesAgain(s: System, i: UInt32, a: Byte, b: Byte)
    requires i in s.sites && s.sites[i].peer.pending == s.sites[i].buffer == [] && EMPTY in s.snaps && a != b
    requires Operation(INSERT, CharID(1, i), SENTINEL_ID, a) in s.sent
    ensures Possible(s, Load(i, EMPTY)) && Possible(Do(s, Load(i, EMPTY)), Insert(i, 0, b))
    ensures !Consistent(Do(Do(s, Load(i, EMPTY)), Insert(i, 0, b)).sent)
  {
    LoadEmpty(s, i);
    var t := Do(s, Load(i, EMPTY));
    var first, second := Operation(INSERT, CharID(1, i), SENTINEL_ID, a), EditOp(t, Insert(i, 0, b));
    assert first in t.sent + {second} && second in t.sent + {second};
  }

  /** How it fails: a site types, then loads the state of a server that has not heard of
      it, and types again: two characters with one identity are on their way. */
  lemma StaleSnapshotReusesIds(i: UInt32, server: UInt32, a: Byte, b: Byte)
    requires i != server && a != b
    ensures var steps := [Insert(i, 0, a), Serialize(server), BeginSync(i)];
            && Runs(Init({i, server}), steps)
            && var s := Final(Init({i, server}), steps);
               && Possible(s, Load(i, EMPTY)) && Possible(Do(s, Load(i, EMPTY)), Insert(i, 0, b))
               && !Consistent(Do(Do(s, Load(i, EMPTY)), Insert(i, 0, b)).sent)
  {
    TypedThenServed(i, server, a);
    TypesAgain(Final(Init({i, server}), [Insert(i, 0, a), Serialize(server), BeginSync(i)]), i, a, b);
  }
}
