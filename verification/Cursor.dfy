/** The local cursor under remote operations: a shared integer adjusted by a
    compare-and-exchange loop for every notification. */
module Cursor {
  import opened Types
  import opened PathOrder
  import opened CanonicalOrder
  import opened PreOrder
  import opened Visible
  import opened Replicas
  import opened Delivery
  import opened Notifications

  /** The adjustment rule. */
  function Adjust(cursor: int, note: Note): int {
    if 0 <= note.offset < cursor then
      if note.op.kind == INSERT then cursor + 1 else cursor - 1
    else cursor
  }

  function AdjustAll(cursor: int, notes: seq<Note>): int
    decreases |notes|
  {
    if notes == [] then cursor else AdjustAll(Adjust(cursor, notes[0]), notes[1..])
  }

  /** What can happen between reading the shared cursor and the exchange: nothing, a
      weak exchange that fails for no reason, or a write by another thread. */
  datatype Turn = Calm | Spurious | Written(value: int)

  function ValueAfter(v: int, turn: Turn): int {
    if turn.Written? then turn.value else v
  }

  /** The value other threads leave after `turns`, if this one writes nothing. */
  function LastValue(v: int, turns: seq<Turn>): int {
    if turns == [] then v else ValueAfter(LastValue(v, turns[..|turns| - 1]), turns[|turns| - 1])
  }

  /** That is the last value written, or the old one if nothing was. */
  lemma {:induction false} LastValueIs(v: int, turns: seq<Turn>)
    ensures (exists k :: 0 <= k < |turns| && turns[k] == Written(LastValue(v, turns))
                         && forall j :: k < j < |turns| ==> !turns[j].Written?)
         || (LastValue(v, turns) == v && forall j :: 0 <= j < |turns| ==> !turns[j].Written?)
  {
    if turns != [] && !turns[|turns| - 1].Written? {
      LastValueIs(v, turns[..|turns| - 1]);
    }
  }

  class AtomicInt {
    var value: int

    constructor (v: int)
      ensures value == v
    {
      value := v;
    }

    /** `expected` is refreshed when the exchange fails. */
    method CompareExchangeWeak(expected: int, desired: int, turn: Turn) returns (ok: bool, seen: int)
      modifies this
      ensures ok <==> turn != Spurious && ValueAfter(old(value), turn) == expected
      ensures value == if ok then desired else ValueAfter(old(value), turn)
      ensures seen == ValueAfter(old(value), turn)
    {
      value := ValueAfter(value, turn);
      ok := turn != Spurious && value == expected;
      seen := value;
      if ok {
        value := desired;
      }
    }
  }

  /** The callback, disturbed by `turns`; `done` of them pass before it is through. It
      acts as one adjustment of the value found there last, which is never lost and
      never made twice. */
  method OnRemoteOp(cursor: AtomicInt, op: Operation, visOffset: int, turns: seq<Turn>) returns (done: nat)
    modifies cursor
    ensures done <= |turns|
    ensures cursor.value == Adjust(LastValue(old(cursor.value), turns[..done]), Note(op, visOffset))
    ensures var found := LastValue(old(cursor.value), turns[..done]);
            cursor.value == if visOffset < 0 || visOffset >= found then found
                            else if op.kind == INSERT then found + 1 else found - 1
  {
    done := 0;
    if visOffset >= 0 {
      var expected := cursor.value;
      while visOffset < expected
        invariant done <= |turns| && cursor.value == expected == LastValue(old(cursor.value), turns[..done])
        decreases |turns| - done
      {
        var desired := if op.kind == INSERT then expected + 1 else expected - 1;
        var turn := Calm;
        if done < |turns| {
          assert turns[..done + 1][..done] == turns[..done];
          turn, done := turns[done], done + 1;
        }
        var ok;
        ok, expected := cursor.CompareExchangeWeak(expected, desired, turn);
        if ok {
          break;
        }
      }
    }
  }

  // --- the cut ----------------------------------------------------------------------

  predicate Shows(c: Content, id: CharID) {
    id in c && !c[id].dead
  }

  /** `id` is visible left of the cursor. */
  ghost predicate StandsLeft(c: Content, id: CharID, cursor: int)
    requires Rooted(c)
  {
    Offset(Render(c), id) < cursor
  }

  /** The cursor stays in the document, and no character that is visible before and
      after changes sides. */
  ghost predicate KeepsCut(c: Content, cursor: int, c': Content, cursor': int)
    requires Rooted(c) && Rooted(c')
  {
    && 0 <= cursor' <= |Text(Render(c'))|
    && forall id :: Shows(c, id) && Shows(c', id) ==> (StandsLeft(c, id, cursor) <==> StandsLeft(c', id, cursor'))
  }

  lemma ShownAt(c: Content, n: nat, id: CharID)
    requires Rooted(c)
    ensures Shows(c, id) ==>
              0 <= Offset(Render(c), id) < |Alive(Render(c))| && Alive(Render(c))[Offset(Render(c), id)].id == id
    ensures n < |Alive(Render(c))| && Alive(Render(c))[n].id == id ==> Offset(Render(c), id) == n
  {
    RenderCanonical(c);
    PositionsInvert(c, Render(c), n, id);
  }

  lemma SpliceShifts<T>(a: seq<T>, off: nat, x: T, i: nat)
    requires off <= |a| && i < |a|
    ensures Splice(a, off, x)[if i < off then i else i + 1] == a[i]
  {
  }

  lemma InsertMoves(c: Content, op: Operation, id: CharID)
    requires Rooted(c) && op.kind == INSERT && Effective(c, op) && CanApply(c, op)
    requires Rooted(Integrate(c, op)) && Shows(c, id) && Shows(Integrate(c, op), id)
    ensures var i, off := Offset(Render(c), id), ReportedOffset(c, op);
            Offset(Render(Integrate(c, op)), id) == if i < off then i else i + 1
  {
    var off := ReportedOffset(c, op);
    InsertShows(c, op);
    ShownAt(c, 0, id);
    var i := Offset(Render(c), id);
    SpliceShifts(Alive(Render(c)), off, Row(op.id, op.value, false, op.left), i);
    ShownAt(Integrate(c, op), if i < off then i else i + 1, id);
  }

  /** A character inserted left of the cursor stays left of it; one inserted at the
      cursor or right of it stands right of it. */
  lemma InsertedSide(c: Content, op: Operation, cursor: int)
    requires Rooted(c) && op.kind == INSERT && Effective(c, op) && CanApply(c, op)
    requires Rooted(Integrate(c, op))
    ensures StandsLeft(Integrate(c, op), op.id, Adjust(cursor, NoteOf(c, op))) <==> ReportedOffset(c, op) < cursor
  {
    InsertShows(c, op);
  }

  lemma InsertKeepsSide(c: Content, op: Operation, cursor: int, id: CharID)
    requires Rooted(c) && op.kind == INSERT && Effective(c, op) && CanApply(c, op)
    requires Rooted(Integrate(c, op)) && Shows(c, id) && Shows(Integrate(c, op), id)
    ensures StandsLeft(c, id, cursor)
       <==> StandsLeft(Integrate(c, op), id, Adjust(cursor, NoteOf(c, op)))
  {
    InsertShows(c, op);
    InsertMoves(c, op, id);
  }

  lemma InsertKeepsCut(c: Content, op: Operation, cursor: int)
    requires Rooted(c) && op.kind == INSERT && Effective(c, op) && CanApply(c, op)
    requires 0 <= cursor <= |Text(Render(c))| && Rooted(Integrate(c, op))
    ensures KeepsCut(c, cursor, Integrate(c, op), Adjust(cursor, NoteOf(c, op)))
  {
    var c' := Integrate(c, op);
    InsertShows(c, op);
    forall id | Shows(c, id) && Shows(c', id)
      ensures StandsLeft(c, id, cursor) <==> StandsLeft(c', id, Adjust(cursor, NoteOf(c, op)))
    {
      InsertKeepsSide(c, op, cursor, id);
    }
  }

  lemma RemoveShifts<T>(a: seq<T>, off: nat, i: nat)
    requires off < |a| && i < |a|
    ensures i != off ==> Remove(a, off)[if i < off then i else i - 1] == a[i]
  {
  }

  lemma DeleteMoves(c: Content, op: Operation, id: CharID)
    requires Rooted(c) && op.kind == DELETE && Effective(c, op)
    requires Rooted(Integrate(c, op)) && Shows(c, id) && Shows(Integrate(c, op), id)
    ensures var i, off := Offset(Render(c), id), ReportedOffset(c, op);
            i != off && Offset(Render(Integrate(c, op)), id) == if i < off then i else i - 1
  {
    var c', off := Integrate(c, op), ReportedOffset(c, op);
    DeleteHides(c, op);
    ShownAt(c, 0, id);
    var i := Offset(Render(c), id);
    RemoveShifts(Alive(Render(c)), off, i);
    ShownAt(c', if i < off then i else i - 1, id);
  }

  lemma DeleteKeepsSide(c: Content, op: Operation, cursor: int, id: CharID)
    requires Rooted(c) && op.kind == DELETE && Effective(c, op)
    requires Rooted(Integrate(c, op)) && Shows(c, id) && Shows(Integrate(c, op), id)
    ensures StandsLeft(c, id, cursor)
       <==> StandsLeft(Integrate(c, op), id, Adjust(cursor, NoteOf(c, op)))
  {
    DeleteHides(c, op);
    DeleteMoves(c, op, id);
  }

  lemma DeleteKeepsCut(c: Content, op: Operation, cursor: int)
    requires Rooted(c) && op.kind == DELETE && Effective(c, op)
    requires 0 <= cursor <= |Text(Render(c))| && Rooted(Integrate(c, op))
    ensures KeepsCut(c, cursor, Integrate(c, op), Adjust(cursor, NoteOf(c, op)))
  {
    var c' := Integrate(c, op);
    DeleteHides(c, op);
    forall id | Shows(c, id) && Shows(c', id)
      ensures StandsLeft(c, id, cursor) <==> StandsLeft(c', id, Adjust(cursor, NoteOf(c, op)))
    {
      DeleteKeepsSide(c, op, cursor, id);
    }
  }

  lemma VisibleShows(c: Content, n: nat)
    requires Rooted(c) && n < |Alive(Render(c))|
    ensures var id := VisibleId(Render(c), n); Shows(c, id) && Offset(Render(c), id) == n
  {
    RenderCanonical(c);
    VisibleIsAlive(c, Render(c), n);
  }

  /** A repeat that is reported left of the cursor moves it, although nothing changed. */
  ghost predicate Disturbs(c: Content, op: Operation, cursor: int)
    requires Rooted(c)
  {
    op.id in c && !Effective(c, op) && ReportedOffset(c, op) < cursor
  }

  lemma DisturbedCutBreaks(c: Content, op: Operation, cursor: int)
    requires Rooted(c) && Disturbs(c, op, cursor) && 0 <= cursor <= |Text(Render(c))|
    ensures Integrate(c, op) == c && !KeepsCut(c, cursor, c, Adjust(cursor, NoteOf(c, op)))
  {
    ReportedRank(c, op);
    var cursor' := Adjust(cursor, NoteOf(c, op));
    var crossed := if op.kind == INSERT then cursor else cursor - 1;
    if crossed < |Text(Render(c))| {
      VisibleShows(c, crossed);
      var id := VisibleId(Render(c), crossed);
      assert StandsLeft(c, id, cursor) != StandsLeft(c, id, cursor');
    }
  }

  /** One notification keeps the cut exactly when it is no repeat reported left of the cursor. */
  lemma NoteKeepsCutIff(c: Content, op: Operation, cursor: int)
    requires Rooted(c) && CanApply(c, op) && Rooted(Integrate(c, op))
    requires 0 <= cursor <= |Text(Render(c))|
    ensures KeepsCut(c, cursor, Integrate(c, op), Adjust(cursor, NoteOf(c, op))) <==> !Disturbs(c, op, cursor)
  {
    if Disturbs(c, op, cursor) {
      DisturbedCutBreaks(c, op, cursor);
    } else if Effective(c, op) {
      if op.kind == INSERT {
        InsertKeepsCut(c, op, cursor);
      } else {
        DeleteKeepsCut(c, op, cursor);
      }
    } else if op.id in c {
      ReportedRank(c, op);
    } else {
      SilentChangesNothing(c, op);
    }
  }

  lemma CutTransitive(a: Content, i: int, b: Content, j: int, c: Content, k: int)
    requires Rooted(a) && Rooted(b) && Rooted(c) && Grows(a, b) && Grows(b, c)
    requires KeepsCut(a, i, b, j) && KeepsCut(b, j, c, k)
    ensures KeepsCut(a, i, c, k)
  {
    forall id | Shows(a, id) && Shows(c, id) ensures StandsLeft(a, id, i) <==> StandsLeft(c, id, k) {
      assert Shows(b, id);
    }
  }

  /** No operation of the batch disturbs the cursor when its turn comes. */
  ghost predicate Undisturbed(c: Content, ops: seq<Operation>, cursor: int)
    requires Rooted(c)
    decreases |ops|
  {
    ops == [] ||
    (&& CanApply(c, ops[0]) && !Disturbs(c, ops[0], cursor)
     && (IntegrateGrows(c, ops[0]);
         Undisturbed(Integrate(c, ops[0]), ops[1..], Adjust(cursor, NoteOf(c, ops[0])))))
  }

  /** Folding the callback over an undisturbed batch keeps the cut. */
  lemma {:induction false} BatchKeepsCut(c: Content, ops: seq<Operation>, cursor: int)
    requires Rooted(c) && Undisturbed(c, ops, cursor) && 0 <= cursor <= |Text(Render(c))|
    ensures Rooted(IntegrateAll(c, ops)) && Grows(c, IntegrateAll(c, ops))
    ensures KeepsCut(c, cursor, IntegrateAll(c, ops), AdjustAll(cursor, Notes(c, ops)))
    decreases |ops|
  {
    if ops != [] {
      var c', cursor' := Integrate(c, ops[0]), Adjust(cursor, NoteOf(c, ops[0]));
      IntegrateGrows(c, ops[0]);
      NoteKeepsCutIff(c, ops[0], cursor);
      BatchKeepsCut(c', ops[1..], cursor');
      assert Notes(c, ops)[0] == NoteOf(c, ops[0]) && Notes(c, ops)[1..] == Notes(c', ops[1..]);
      GrowsTransitive(c, c', IntegrateAll(c, ops));
      CutTransitive(c, cursor, c', cursor', IntegrateAll(c, ops), AdjustAll(cursor, Notes(c, ops)));
    }
  }

  /** A batch that replays the text does not disturb the cursor. */
  lemma {:induction false} FaithfulIsUndisturbed(c: Content, ops: seq<Operation>, cursor: int)
    requires Rooted(c) && Faithful(c, ops) && 0 <= cursor <= |Text(Render(c))|
    ensures Undisturbed(c, ops, cursor)
    decreases |ops|
  {
    if ops != [] {
      IntegrateGrows(c, ops[0]);
      NoteKeepsCutIff(c, ops[0], cursor);
      FaithfulIsUndisturbed(Integrate(c, ops[0]), ops[1..], Adjust(cursor, NoteOf(c, ops[0])));
    }
  }

  /** A repeat unblocks nothing. */
  lemma RepeatIsAlone(p: Peer, op: Operation)
    requires op.id in p.replica.content && !Effective(p.replica.content, op)
    requires Settled(p.replica.content, p.pending) && CanApply(p.replica.content, op)
    ensures AppliedBy(p, op) == [op]
  {
    assert Integrate(p.replica.content, op) == p.replica.content;
    SettledPass(Apply(p.replica, op), p.pending);
  }

  /** One step of a settled peer keeps the cursor's cut, however long the drain cascade,
      when the operation is no repeat reported left of the cursor and unblocks nothing
      queued twice. */
  lemma StepKeepsCut(s: set<Operation>, p: Peer, op: Operation, cursor: int)
    requires Consistent(s + {op}) && Explains(s, p) && CanApply(p.replica.content, op)
    requires !Disturbs(p.replica.content, op, cursor) && !UnblocksTwice(s, p, op)
    requires 0 <= cursor <= |Text(Render(p.replica.content))|
    ensures var c, c' := p.replica.content, Receive(p, op).replica.content;
            Rooted(c') && KeepsCut(c, cursor, c', AdjustAll(cursor, Notes(c, AppliedBy(p, op))))
  {
    var c, ops := p.replica.content, AppliedBy(p, op);
    BatchRuns(p, op);
    if Misreported(c, op) {
      RepeatIsAlone(p, op);
      IntegrateGrows(c, op);
      assert ops[1..] == [];
    } else {
      FaithfulIff(s, p, op);
      FaithfulIsUndisturbed(c, ops, cursor);
    }
    BatchKeepsCut(c, ops, cursor);
  }
}
