/** The (operation, offset) notifications a peer emits: read as string edits they
    replay the document, and folded over a cursor they keep it in place. */
module Notifications {
  import opened Types
  import opened PathOrder
  import opened CanonicalOrder
  import opened PreOrder
  import opened Visible
  import opened Replicas
  import opened Delivery
  import opened Convergence

  datatype Note = Note(op: Operation, offset: int)

  ghost function NoteOf(c: Content, op: Operation): Note {
    Note(op, ReportedOffset(c, op))
  }

  /** The notifications for `ops` applied one after the other from `c`. */
  ghost function Notes(c: Content, ops: seq<Operation>): (s: seq<Note>)
    ensures |s| == |ops|
    decreases |ops|
  {
    if ops == [] then [] else [NoteOf(c, ops[0])] + Notes(Integrate(c, ops[0]), ops[1..])
  }

  function IntegrateAll(c: Content, ops: seq<Operation>): Content
    decreases |ops|
  {
    if ops == [] then c else IntegrateAll(Integrate(c, ops[0]), ops[1..])
  }

  /** Every operation in turn is applicable. */
  ghost predicate RunsFrom(c: Content, ops: seq<Operation>)
    decreases |ops|
  {
    ops == [] || (CanApply(c, ops[0]) && RunsFrom(Integrate(c, ops[0]), ops[1..]))
  }

  // --- the batch of one step -------------------------------------------------------

  lemma {:induction false} RunsConcat(c: Content, a: seq<Operation>, b: seq<Operation>)
    requires RunsFrom(c, a) && RunsFrom(IntegrateAll(c, a), b)
    ensures RunsFrom(c, a + b) && IntegrateAll(c, a + b) == IntegrateAll(IntegrateAll(c, a), b)
    decreases |a|
  {
    if a == [] {
      assert a + b == b;
    } else {
      assert (a + b)[1..] == a[1..] + b;
      RunsConcat(Integrate(c, a[0]), a[1..], b);
    }
  }

  lemma {:induction false} PassRuns(r: Replica, ops: seq<Operation>)
    ensures var d := Pass(r, ops);
            RunsFrom(r.content, d.applied) && IntegrateAll(r.content, d.applied) == d.r.content
    decreases |ops|
  {
    if ops != [] {
      if CanApply(r.content, ops[0]) {
        var d := Pass(Apply(r, ops[0]), ops[1..]);
        PassRuns(Apply(r, ops[0]), ops[1..]);
        assert ([ops[0]] + d.applied)[1..] == d.applied;
      } else {
        PassRuns(r, ops[1..]);
      }
    }
  }

  lemma {:induction false} DrainRuns(r: Replica, ops: seq<Operation>)
    ensures var d := Drain(r, ops);
            RunsFrom(r.content, d.applied) && IntegrateAll(r.content, d.applied) == d.r.content
    decreases |ops|
  {
    var d := Pass(r, ops);
    PassRuns(r, ops);
    if d.applied != [] {
      DrainRuns(d.r, d.left);
      RunsConcat(r.content, d.applied, Drain(d.r, d.left).applied);
    }
  }

  /** Each notification is made in the state its operation has just reached. */
  lemma {:induction false} NotesAt(c: Content, ops: seq<Operation>, k: nat)
    requires k < |ops|
    ensures Notes(c, ops)[k] == Note(ops[k], ReportedOffset(IntegrateAll(c, ops[..k]), ops[k]))
    decreases k
  {
    if k > 0 {
      NotesAt(Integrate(c, ops[0]), ops[1..], k - 1);
      assert ops[..k][1..] == ops[1..][..k - 1] && ops[..k][0] == ops[0];
    }
  }

  /** A step's batch, applied one by one, is the step. */
  lemma BatchRuns(p: Peer, op: Operation)
    ensures var c, ops := p.replica.content, AppliedBy(p, op);
            RunsFrom(c, ops) && IntegrateAll(c, ops) == Receive(p, op).replica.content
  {
    if CanApply(p.replica.content, op) {
      var r := Apply(p.replica, op);
      DrainRuns(r, p.pending);
      assert ([op] + Drain(r, p.pending).applied)[1..] == Drain(r, p.pending).applied;
    }
  }

  // --- notifications as string edits -------------------------------------------------

  function Edit(text: seq<Byte>, note: Note): seq<Byte> {
    if note.offset < 0 then text
    else if note.op.kind == INSERT then
      if note.offset <= |text| then Splice(text, note.offset, note.op.value) else text
    else
      if note.offset < |text| then Remove(text, note.offset) else text
  }

  function EditAll(text: seq<Byte>, notes: seq<Note>): seq<Byte>
    decreases |notes|
  {
    if notes == [] then text else EditAll(Edit(text, notes[0]), notes[1..])
  }

  /** A repeated operation changes nothing but is reported like a change; only a
      repeated delete of a tombstone behind the last visible character reads as none. */
  ghost predicate Misreported(c: Content, op: Operation)
    requires Rooted(c)
  {
    && op.id in c && !Effective(c, op)
    && (op.kind == INSERT || ReportedOffset(c, op) < |Text(Render(c))|)
  }

  lemma ReportedRank(c: Content, op: Operation)
    requires Rooted(c) && op.id in c && !Effective(c, op)
    ensures Integrate(c, op) == c && 0 <= ReportedOffset(c, op) <= |Text(Render(c))|
  {
    var rows := Render(c);
    assert Integrate(c, op) == c;
    RenderCanonical(c);
    assert HasRow(rows, op.id);
    RankBound(rows, Find(rows, op.id));
  }

  lemma SilentChangesNothing(c: Content, op: Operation)
    requires Rooted(c) && op.id !in c && !Effective(c, op)
    ensures Integrate(c, op) == c && ReportedOffset(c, op) == -1
  {
    RenderCanonical(c);
    if op.id != SENTINEL_ID {
      KnownHasRow(c, Render(c), op.id);
    }
  }

  lemma ValuesEdit(a: seq<Row>, k: nat, row: Row)
    ensures k <= |a| ==> Values(Splice(a, k, row)) == Splice(Values(a), k, row.value)
    ensures k < |a| ==> Values(Remove(a, k)) == Remove(Values(a), k)
  {
  }

  /** One notification, read as an edit, gives the new text exactly when the
      operation is not misreported. */
  lemma NoteReplays(c: Content, op: Operation)
    requires Rooted(c) && CanApply(c, op)
    ensures Edit(Text(Render(c)), NoteOf(c, op)) == Text(Render(Integrate(c, op))) <==> !Misreported(c, op)
  {
    if Effective(c, op) {
      if op.kind == INSERT {
        InsertShows(c, op);
      } else {
        DeleteHides(c, op);
      }
      ValuesEdit(Alive(Render(c)), ReportedOffset(c, op), Row(op.id, op.value, false, op.left));
    } else if op.id in c {
      ReportedRank(c, op);
    } else {
      SilentChangesNothing(c, op);
    }
  }

  /** No operation of the batch is misreported when its turn comes. */
  ghost predicate Faithful(c: Content, ops: seq<Operation>)
    requires Rooted(c)
    decreases |ops|
  {
    ops == [] ||
    (&& CanApply(c, ops[0]) && !Misreported(c, ops[0])
     && (IntegrateGrows(c, ops[0]); Faithful(Integrate(c, ops[0]), ops[1..])))
  }

  lemma {:induction false} NotesReplay(c: Content, ops: seq<Operation>)
    requires Rooted(c) && Faithful(c, ops)
    ensures EditAll(Text(Render(c)), Notes(c, ops)) == Text(Render(IntegrateAll(c, ops)))
    decreases |ops|
  {
    if ops != [] {
      IntegrateGrows(c, ops[0]);
      NoteReplays(c, ops[0]);
      NotesReplay(Integrate(c, ops[0]), ops[1..]);
      assert Notes(c, ops)[1..] == Notes(Integrate(c, ops[0]), ops[1..]);
    }
  }

  /** An insert adds at most one character, and its notification, read against any
      longer text, adds no less. */
  lemma InsertLengthens(c: Content, op: Operation, text: seq<Byte>)
    requires Rooted(c) && op.kind == INSERT && CanApply(c, op) && |text| >= |Text(Render(c))|
    ensures |Edit(text, NoteOf(c, op))| - |text| >= |Text(Render(Integrate(c, op)))| - |Text(Render(c))|
    ensures op.id in c ==> |Edit(text, NoteOf(c, op))| > |text|
  {
    if Effective(c, op) {
      InsertShows(c, op);
    } else if op.id in c {
      ReportedRank(c, op);
    } else {
      SilentChangesNothing(c, op);
    }
  }

  /** A text that is too long stays too long while inserts are reported. */
  lemma {:induction false} LongerStaysLonger(c: Content, ops: seq<Operation>, text: seq<Byte>)
    requires Rooted(c) && RunsFrom(c, ops) && AllInserts(ops) && |text| > |Text(Render(c))|
    ensures |EditAll(text, Notes(c, ops))| > |Text(Render(IntegrateAll(c, ops)))|
    decreases |ops|
  {
    if ops != [] {
      assert ops[0] in ops;
      IntegrateGrows(c, ops[0]);
      InsertLengthens(c, ops[0], text);
      LongerStaysLonger(Integrate(c, ops[0]), ops[1..], Edit(text, NoteOf(c, ops[0])));
      assert Notes(c, ops)[1..] == Notes(Integrate(c, ops[0]), ops[1..]);
    }
  }

  /** A batch of inserts replays exactly when none is misreported. */
  lemma {:induction false} InsertsReplayIff(c: Content, ops: seq<Operation>)
    requires Rooted(c) && RunsFrom(c, ops) && AllInserts(ops)
    ensures EditAll(Text(Render(c)), Notes(c, ops)) == Text(Render(IntegrateAll(c, ops))) <==> Faithful(c, ops)
    decreases |ops|
  {
    if ops != [] {
      var c', text := Integrate(c, ops[0]), Edit(Text(Render(c)), NoteOf(c, ops[0]));
      assert ops[0] in ops;
      IntegrateGrows(c, ops[0]);
      NoteReplays(c, ops[0]);
      assert Notes(c, ops)[1..] == Notes(c', ops[1..]);
      if Misreported(c, ops[0]) {
        InsertLengthens(c, ops[0], Text(Render(c)));
        LongerStaysLonger(c', ops[1..], text);
      } else {
        InsertsReplayIff(c', ops[1..]);
      }
    }
  }

  /** A delete integrates no character, so it unblocks nothing. */
  lemma DeleteUnblocksNothing(r: Replica, op: Operation, pending: seq<Operation>)
    requires op.kind == DELETE && Settled(r.content, pending)
    ensures Drain(Apply(r, op), pending).applied == []
  {
    SettledPass(Apply(r, op), pending);
  }

  lemma {:induction false} SettledPass(r: Replica, pending: seq<Operation>)
    requires Settled(r.content, pending)
    ensures Pass(r, pending) == Drained(r, pending, [])
  {
    if pending != [] {
      assert pending == [pending[0]] + pending[1..];
      SettledPass(r, pending[1..]);
    }
  }

  /** Replay: the notifications of a step of a settled peer turn the old document into
      the new one, for a drain cascade of any length, exactly when no operation of the
      batch is misreported. */
  lemma StepReplaysIff(p: Peer, op: Operation)
    requires Rooted(p.replica.content) && Settled(p.replica.content, p.pending) && AllInserts(p.pending)
    ensures EditAll(Text(Render(p.replica.content)), Notes(p.replica.content, AppliedBy(p, op))) ==
            Text(Render(Receive(p, op).replica.content))
       <==> Faithful(p.replica.content, AppliedBy(p, op))
  {
    var c, ops := p.replica.content, AppliedBy(p, op);
    BatchRuns(p, op);
    if op.kind == DELETE {
      DeleteUnblocksNothing(p.replica, op, p.pending);
      assert ops == [op] && [op][1..] == [];
      NoteReplays(c, op);
      IntegrateGrows(c, op);
      assert Notes(c, ops)[1..] == [];
    } else {
      AppliedInserts(p, op);
      InsertsReplayIff(c, ops);
    }
  }

  lemma UnblockedInserts(p: Peer, op: Operation)
    requires AllInserts(p.pending)
    ensures AllInserts(Drain(Apply(p.replica, op), p.pending).applied)
  {
    var d := Drain(Apply(p.replica, op), p.pending);
    DrainConserves(Apply(p.replica, op), p.pending);
    forall q | q in d.applied ensures q.kind == INSERT {
      assert q in multiset(d.applied);
      assert q in multiset(p.pending);
    }
  }

  lemma AppliedInserts(p: Peer, op: Operation)
    requires AllInserts(p.pending) && op.kind == INSERT
    ensures AllInserts(AppliedBy(p, op))
  {
    UnblockedInserts(p, op);
  }

  // --- when a batch is free of repeats ------------------------------------------------

  predicate DistinctInserts(c: Content, ops: seq<Operation>) {
    && (forall op :: op in ops ==> op.kind == INSERT && !Known(c, op.id))
    && (forall i, j :: 0 <= i < j < |ops| ==> ops[i].id != ops[j].id)
  }

  lemma {:induction false} RunFaithful(c: Content, ops: seq<Operation>)
    requires Rooted(c) && RunsFrom(c, ops) && DistinctInserts(c, ops)
    ensures Faithful(c, ops)
    decreases |ops|
  {
    if ops != [] {
      IntegrateGrows(c, ops[0]);
      assert ops[0] in ops;
      forall op | op in ops[1..] ensures op.kind == INSERT && !Known(Integrate(c, ops[0]), op.id) {
        var i :| 0 <= i < |ops[1..]| && ops[1..][i] == op;
        assert ops[i + 1].id != ops[0].id && ops[i + 1] in ops;
      }
      RunFaithful(Integrate(c, ops[0]), ops[1..]);
    }
  }

  lemma TwiceCounts(ops: seq<Operation>, a: Operation)
    ensures multiset(ops)[a] >= 2 <==> exists i, j :: 0 <= i < j < |ops| && ops[i] == ops[j] == a
  {
    if exists i, j :: 0 <= i < j < |ops| && ops[i] == ops[j] == a {
      var i, j :| 0 <= i < j < |ops| && ops[i] == ops[j] == a;
      TwiceIn(ops, i, j);
    } else {
      OnceCount(ops, a);
    }
  }

  lemma {:induction false} OnceCount(ops: seq<Operation>, a: Operation)
    requires forall i, j :: 0 <= i < j < |ops| ==> !(ops[i] == ops[j] == a)
    ensures multiset(ops)[a] <= 1
  {
    if ops != [] {
      assert ops == [ops[0]] + ops[1..];
      OnceCount(ops[1..], a);
      forall j | 0 <= j < |ops[1..]| ensures !(ops[0] == ops[1..][j] == a) {
        assert ops[j + 1] == ops[1..][j];
      }
    }
  }

  lemma TwiceIn(s: seq<Operation>, i: nat, j: nat)
    requires i < j < |s|
    ensures s[i] == s[j] ==> multiset(s)[s[i]] >= 2
  {
    var a, b := s[..i + 1], s[i + 1..];
    assert s == a + b;
    assert s[i] == a[i] && s[j] == b[j - i - 1];
    assert multiset(a)[a[i]] >= 1 && multiset(b)[b[j - i - 1]] >= 1;
  }

  /** Once integrated, an insert reported again is misreported. */
  lemma {:induction false} FaithfulIsNews(c: Content, ops: seq<Operation>, id: CharID)
    requires Rooted(c) && Faithful(c, ops) && AllInserts(ops) && id in c
    ensures forall op :: op in ops ==> op.id != id
    decreases |ops|
  {
    if ops != [] {
      assert ops == [ops[0]] + ops[1..];
      IntegrateGrows(c, ops[0]);
      FaithfulIsNews(Integrate(c, ops[0]), ops[1..], id);
    }
  }

  lemma {:induction false} FaithfulOnce(c: Content, ops: seq<Operation>, a: Operation)
    requires Rooted(c) && Faithful(c, ops) && AllInserts(ops) && a.id != SENTINEL_ID
    ensures multiset(ops)[a] <= 1
    decreases |ops|
  {
    if ops != [] {
      assert ops == [ops[0]] + ops[1..];
      IntegrateGrows(c, ops[0]);
      FaithfulOnce(Integrate(c, ops[0]), ops[1..], a);
      if ops[0] == a {
        FaithfulIsNews(Integrate(c, a), ops[1..], a.id);
      }
    }
  }

  // --- the check that can be made before the step ---------------------------------------

  /** Two copies of an operation wait, and `op` completes its chain. */
  ghost predicate UnblocksTwice(s: set<Operation>, p: Peer, op: Operation) {
    exists i, j :: 0 <= i < j < |p.pending| && p.pending[i] == p.pending[j] && Ready(s + {op}, p.pending[i].id)
  }

  /** What a step applies from the queue: exactly the copies of what has become ready. */
  lemma UnblockedAre(s: set<Operation>, p: Peer, op: Operation, q: Operation)
    requires Consistent(s + {op}) && Explains(s, p) && CanApply(p.replica.content, op)
    ensures var d := Drain(Apply(p.replica, op), p.pending);
            multiset(d.applied)[q] == if Ready(s + {op}, q.id) then multiset(p.pending)[q] else 0
  {
    var d, p' := Drain(Apply(p.replica, op), p.pending), Receive(p, op);
    DrainConserves(Apply(p.replica, op), p.pending);
    ReceiveExplained(s, p, op);
    ExactReadiness(s + {op}, p');
    assert multiset(d.left)[q] + multiset(d.applied)[q] == multiset(p.pending)[q];
    if Ready(s + {op}, q.id) {
      assert q !in d.left;
    } else if q in d.applied {
      AppliedAreKnown(p, op, q);
    }
  }

  lemma AppliedAreKnown(p: Peer, op: Operation, q: Operation)
    requires CanApply(p.replica.content, op) && AllInserts(p.pending) && Rooted(p.replica.content)
    requires q in Drain(Apply(p.replica, op), p.pending).applied
    ensures Known(Receive(p, op).replica.content, q.id)
  {
    var r := Apply(p.replica, op);
    IntegrateGrows(p.replica.content, op);
    DrainRuns(r, p.pending);
    UnblockedInserts(p, op);
    RunIsKnown(r.content, Drain(r, p.pending).applied, q);
  }

  lemma {:induction false} RunIsKnown(c: Content, ops: seq<Operation>, q: Operation)
    requires Rooted(c) && RunsFrom(c, ops) && ((q in ops && q.kind == INSERT) || Known(c, q.id))
    ensures Known(IntegrateAll(c, ops), q.id)
    decreases |ops|
  {
    if ops != [] {
      assert ops == [ops[0]] + ops[1..];
      IntegrateGrows(c, ops[0]);
      RunIsKnown(Integrate(c, ops[0]), ops[1..], q);
    }
  }

  /** What is left to apply after a new operation is new, and queued once. */
  lemma UnblockedDistinct(s: set<Operation>, p: Peer, op: Operation)
    requires Consistent(s + {op}) && Explains(s, p) && CanApply(p.replica.content, op)
    requires !UnblocksTwice(s, p, op) && Settled(p.replica.content, p.pending)
    ensures DistinctInserts(Integrate(p.replica.content, op), Drain(Apply(p.replica, op), p.pending).applied)
  {
    var c, ops := p.replica.content, Drain(Apply(p.replica, op), p.pending).applied;
    DrainConserves(Apply(p.replica, op), p.pending);
    ConsistentSubset(s, s + {op});
    ExactReadiness(s, p);
    forall q | q in ops ensures q in p.pending && q in s && q.kind == INSERT && !Known(Integrate(c, op), q.id) {
      assert q in multiset(ops);
      assert q in multiset(p.pending);
      assert q in s + {op} && op in s + {op};
      assert !Known(c, q.id);
    }
    forall i, j | 0 <= i < j < |ops| ensures ops[i].id != ops[j].id {
      assert ops[i] in s + {op} && ops[j] in s + {op};
      if ops[i] == ops[j] {
        TwiceCounts(ops, ops[i]);
        UnblockedAre(s, p, op, ops[i]);
        TwiceCounts(p.pending, ops[i]);
      }
    }
  }

  /** The batch is reported faithfully exactly when the operation is no misreported
      repeat and unblocks no operation that is queued twice. */
  lemma FaithfulIff(s: set<Operation>, p: Peer, op: Operation)
    requires Consistent(s + {op}) && Explains(s, p) && CanApply(p.replica.content, op)
    ensures Faithful(p.replica.content, AppliedBy(p, op))
       <==> !Misreported(p.replica.content, op) && !UnblocksTwice(s, p, op)
  {
    var c, ops := p.replica.content, Drain(Apply(p.replica, op), p.pending).applied;
    BatchRuns(p, op);
    IntegrateGrows(c, op);
    DrainRuns(Apply(p.replica, op), p.pending);
    assert AppliedBy(p, op)[1..] == ops;
    if UnblocksTwice(s, p, op) {
      var i, j :| 0 <= i < j < |p.pending| && p.pending[i] == p.pending[j] && Ready(s + {op}, p.pending[i].id);
      var q := p.pending[i];
      TwiceCounts(p.pending, q);
      UnblockedAre(s, p, op, q);
      assert q in s + {op};
      if Faithful(c, AppliedBy(p, op)) {
        UnblockedInserts(p, op);
        FaithfulOnce(Integrate(c, op), ops, q);
      }
    } else {
      UnblockedDistinct(s, p, op);
      RunFaithful(Integrate(c, op), ops);
    }
  }

  /** The notifications of a step replay the document exactly when, before the step,
      the operation is no misreported repeat and unblocks nothing queued twice. */
  lemma StepReplays(s: set<Operation>, p: Peer, op: Operation)
    requires Consistent(s + {op}) && Explains(s, p)
    ensures EditAll(Text(Render(p.replica.content)), Notes(p.replica.content, AppliedBy(p, op))) ==
            Text(Render(Receive(p, op).replica.content))
       <==> (CanApply(p.replica.content, op) ==>
               !Misreported(p.replica.content, op) && !UnblocksTwice(s, p, op))
  {
    StepReplaysIff(p, op);
    if CanApply(p.replica.content, op) {
      FaithfulIff(s, p, op);
    }
  }

  lemma ChainOfTwo(s: set<Operation>, first: Operation, next: Operation)
    requires first in s && first.kind == INSERT && first.left == SENTINEL_ID
    requires next in s && next.kind == INSERT && next.left == first.id
    ensures Ready(s, next.id)
  {
    var chain := [first.id, next.id];
    assert ChainStep(s, chain, 0) && ChainStep(s, chain, 1);
    assert IsChain(s, next.id, chain);
  }

  /** Whatever is unblocked twice is reported twice, and garbles the replay. */
  lemma TwiceGarbles(s: set<Operation>, p: Peer, op: Operation)
    requires Consistent(s + {op}) && Explains(s, p) && CanApply(p.replica.content, op) && UnblocksTwice(s, p, op)
    ensures EditAll(Text(Render(p.replica.content)), Notes(p.replica.content, AppliedBy(p, op))) !=
            Text(Render(Receive(p, op).replica.content))
  {
    StepReplays(s, p, op);
  }

  lemma QueuedTwice(next: Operation)
    requires next.kind == INSERT && !Known(EMPTY.content, next.left)
    ensures ReceiveAll(NEWCOMER, [next, next]) == Peer(EMPTY, [next, next])
  {
    assert [next, next][..1] == [next] && [next][..0] == [];
    assert ReceiveAll(NEWCOMER, [next]) == Peer(EMPTY, [next]);
  }

  lemma TwoWait(first: Operation, next: Operation)
    requires first.kind == INSERT && first.left == SENTINEL_ID && first.id != SENTINEL_ID
    requires next.kind == INSERT && next.left == first.id && next.id !in {SENTINEL_ID, first.id}
    ensures Consistent({next} + {first}) && Explains({next}, Peer(EMPTY, [next, next]))
    ensures UnblocksTwice({next}, Peer(EMPTY, [next, next]), first)
  {
    assert Rooted(EMPTY.content);
    ChainOfTwo({next} + {first}, first, next);
    assert [next, next][0] == [next, next][1];
  }

  /** A network that repeats messages can bring this about: an insert received twice
      waits twice, and is reported twice when the character left of it arrives. */
  lemma QueuedTwiceGarbles(first: Operation, next: Operation)
    requires first.kind == INSERT && first.left == SENTINEL_ID && first.id != SENTINEL_ID
    requires next.kind == INSERT && next.left == first.id && next.id !in {SENTINEL_ID, first.id}
    ensures var p := ReceiveAll(NEWCOMER, [next, next]);
            EditAll(Text(Render(p.replica.content)), Notes(p.replica.content, AppliedBy(p, first))) !=
            Text(Render(Receive(p, first).replica.content))
  {
    QueuedTwice(next);
    TwoWait(first, next);
    TwiceGarbles({next}, Peer(EMPTY, [next, next]), first);
  }
}
