/** What one operation does to a replica, on the abstract state: the Lamport
    clock and the integrated characters. */
module Replicas {
  import opened Types
  import opened PathOrder
  import opened CanonicalOrder
  import opened PreOrder
  import opened Visible

  datatype Replica = Replica(clock: int, content: Content)

  const EMPTY: Replica := Replica(0, map[])

  predicate CanApply(c: Content, op: Operation) {
    op.kind == DELETE || Known(c, op.left)
  }

  /** `applyRemote` is defined: a new insert finds its left neighbour. */
  predicate Appliable(c: Content, op: Operation) {
    op.kind == INSERT && !Known(c, op.id) ==> Known(c, op.left)
  }

  function Integrate(c: Content, op: Operation): Content {
    match op.kind
    case INSERT => if Known(c, op.id) then c else c[op.id := Entry(op.left, op.value, false)]
    case DELETE => if op.id in c then c[op.id := c[op.id].(dead := true)] else c
  }

  function Tick(clock: int, op: Operation): int {
    if op.id.clock >= clock then op.id.clock + 1 else clock
  }

  function Apply(r: Replica, op: Operation): Replica {
    Replica(Tick(r.clock, op), Integrate(r.content, op))
  }

  /** Nothing integrated is lost, moved or revived. */
  predicate Grows(c: Content, c': Content) {
    forall id :: id in c ==>
      && id in c' && c'[id].left == c[id].left && c'[id].value == c[id].value
      && (c[id].dead ==> c'[id].dead)
  }

  /** A delete whose target is not integrated is dropped without a trace. */
  predicate Misses(c: Content, op: Operation) {
    op.kind == DELETE && op.id !in c
  }

  /** `op` is news to a replica with content `c`. */
  predicate Effective(c: Content, op: Operation) {
    match op.kind
    case INSERT => !Known(c, op.id)
    case DELETE => op.id in c && !c[op.id].dead
  }

  lemma IntegrateGrows(c: Content, op: Operation)
    requires Rooted(c) && Appliable(c, op)
    ensures Rooted(Integrate(c, op)) && Grows(c, Integrate(c, op)) && KeepsLefts(c, Integrate(c, op))
  {
    var c' := Integrate(c, op);
    if op.kind == INSERT && !Known(c, op.id) {
      RootedLeaf(c, op.id, Entry(op.left, op.value, false));
    } else {
      RootedSameLefts(c, c');
    }
  }

  lemma GrowsTransitive(a: Content, b: Content, c: Content)
    requires Grows(a, b) && Grows(b, c)
    ensures Grows(a, c)
  {
  }

  lemma RenderInjective(c: Content, c': Content)
    requires Rooted(c) && Rooted(c')
    ensures Render(c) == Render(c') <==> c == c'
  {
    RenderCanonical(c);
    RenderCanonical(c');
    if Render(c) == Render(c') {
      var rows := Render(c);
      forall id ensures (id in c <==> id in c') && (id in c ==> c[id] == c'[id]) {
        KnownHasRow(c, rows, id);
        KnownHasRow(c', rows, id);
        if id in c {
          assert rows[Find(rows, id)] == RowOf(id, c[id]) == RowOf(id, c'[id]);
        }
      }
    }
  }

  // --- enabled operations commute -------------------------------------------

  /** The pairs whose order matters: a delete against the insert of its own
      target, and two different inserts claiming one identity. */
  predicate Conflict(c: Content, a: Operation, b: Operation) {
    && a.id == b.id && !Known(c, a.id)
    && (a.kind != b.kind || (a.kind == INSERT && (a.left != b.left || a.value != b.value)))
  }

  lemma ContentsCommute(c: Content, a: Operation, b: Operation)
    ensures Integrate(Integrate(c, a), b) == Integrate(Integrate(c, b), a) <==> !Conflict(c, a, b)
  {
    var ab, ba := Integrate(Integrate(c, a), b), Integrate(Integrate(c, b), a);
    if Conflict(c, a, b) {
      assert ab[a.id] != ba[a.id];
    } else {
      assert ab.Keys == ba.Keys;
      assert forall id :: id in ab ==> ab[id] == ba[id];
    }
  }

  /** Two enabled operations leave the same sequence and clock in either order
      exactly when they do not conflict. */
  lemma EnabledOperationsCommute(r: Replica, a: Operation, b: Operation)
    requires Rooted(r.content) && CanApply(r.content, a) && CanApply(r.content, b)
    ensures var ab, ba := Apply(Apply(r, a), b), Apply(Apply(r, b), a);
            && Rooted(ab.content) && Rooted(ba.content) && ab.clock == ba.clock
            && (Render(ab.content) == Render(ba.content) <==> !Conflict(r.content, a, b))
  {
    var c := r.content;
    IntegrateGrows(c, a);
    IntegrateGrows(c, b);
    IntegrateGrows(Integrate(c, a), b);
    IntegrateGrows(Integrate(c, b), a);
    RenderInjective(Integrate(Integrate(c, a), b), Integrate(Integrate(c, b), a));
    ContentsCommute(c, a, b);
  }

  /** Repeating any applicable operation at once changes nothing. */
  lemma RepeatAtOnce(r: Replica, op: Operation)
    requires CanApply(r.content, op)
    ensures CanApply(Apply(r, op).content, op) && Apply(Apply(r, op), op) == Apply(r, op)
  {
    assert Integrate(Integrate(r.content, op), op) == Integrate(r.content, op);
  }

  /** After any growth a repeat still changes nothing, unless it is a delete that missed
      its target at first and finds it now. */
  lemma RepeatsDoNothingIff(r: Replica, op: Operation, later: Replica)
    requires Rooted(later.content) && CanApply(r.content, op)
    requires Grows(Apply(r, op).content, later.content) && Apply(r, op).clock <= later.clock
    ensures CanApply(later.content, op)
    ensures Apply(later, op) == later <==> !(Misses(r.content, op) && Effective(later.content, op))
  {
    if !Effective(later.content, op) {
      assert Integrate(later.content, op) == later.content;
    }
    assert op.kind == INSERT && op.id != SENTINEL_ID ==> op.id in Integrate(r.content, op);
    assert op.kind == DELETE && op.id in r.content ==> op.id in Integrate(r.content, op);
  }

  /** The delivery orders of an insert and its delete end differently. */
  lemma DeleteBeforeInsertIsLost(id: CharID, value: Byte)
    requires id != SENTINEL_ID
    ensures var ins, del := Operation(INSERT, id, SENTINEL_ID, value), DeleteOp(id);
            && CanApply(map[], ins) && CanApply(map[], del)
            && Text(Render(Integrate(Integrate(map[], ins), del))) == []
            && Text(Render(Integrate(Integrate(map[], del), ins))) == [value]
  {
    var e := Entry(SENTINEL_ID, value, false);
    var none: Content := map[];
    assert Rooted(none);
    SpliceEnd(none, id, e);
    TextSplice([SENTINEL_ROW], 1, RowOf(id, e));
    var c := none[id := e];
    var rows := [SENTINEL_ROW, RowOf(id, e)];
    RootedLeaf(none, id, e);
    RenderCanonical(c);
    assert Splice([SENTINEL_ROW], 1, RowOf(id, e)) == rows;
    CanonicalUnique(c, Render(c), rows);
    TombstoneKeepsCanonical(c, rows, 1);
    var dead := rows[1 := rows[1].(tombstoned := true)];
    var c' := c[id := e.(dead := true)];
    RenderCanonical(c');
    CanonicalUnique(c', Render(c'), dead);
    TextKill(rows, 1);
  }

  lemma SpliceEnd(c: Content, id: CharID, e: Entry)
    requires c == map[] && id != SENTINEL_ID && e.left == SENTINEL_ID
    ensures Canonical(c[id := e], Splice([SENTINEL_ROW], 1, RowOf(id, e)))
  {
    EmptyCanonical();
    InsertKeepsCanonical(c, [SENTINEL_ROW], id, e, 0, 1);
  }

  // --- the effect of one operation on the visible text ----------------------

  /** Where the skip loop started at `k` stops. */
  ghost function Scan(c: Content, rows: seq<Row>, left: CharID, newID: CharID, k: nat): (end: nat)
    requires Canonical(c, rows) && Known(c, left) && k <= |rows|
    ensures k <= end <= |rows|
    ensures forall i :: k <= i < end ==> Skips(c, rows[i].id, left, newID)
    ensures end < |rows| ==> !Skips(c, rows[end].id, left, newID)
    decreases |rows| - k
  {
    if k < |rows| && Skips(c, rows[k].id, left, newID) then Scan(c, rows, left, newID, k + 1) else k
  }

  /** Integrating a new character splices one row into the document. */
  lemma InsertSplices(c: Content, op: Operation) returns (k: nat)
    requires Rooted(c) && op.kind == INSERT && !Known(c, op.id) && Known(c, op.left)
    ensures 0 < k <= |Render(c)|
    ensures Render(Integrate(c, op)) == Splice(Render(c), k, Row(op.id, op.value, false, op.left))
    ensures Rooted(Integrate(c, op))
  {
    var rows, e := Render(c), Entry(op.left, op.value, false);
    RenderCanonical(c);
    KnownHasRow(c, rows, op.left);
    var l := Find(rows, op.left);
    k := Scan(c, rows, op.left, op.id, l + 1);
    InsertKeepsCanonical(c, rows, op.id, e, l, k);
    IntegrateGrows(c, op);
    RenderCanonical(Integrate(c, op));
    CanonicalUnique(Integrate(c, op), Render(Integrate(c, op)), Splice(rows, k, RowOf(op.id, e)));
  }

  lemma DeleteTombstones(c: Content, id: CharID) returns (k: nat)
    requires Rooted(c) && id in c
    ensures 0 < k < |Render(c)| && Render(c)[k] == RowOf(id, c[id])
    ensures Render(Integrate(c, DeleteOp(id))) == Render(c)[k := Render(c)[k].(tombstoned := true)]
    ensures Rooted(Integrate(c, DeleteOp(id)))
  {
    var rows, c' := Render(c), Integrate(c, DeleteOp(id));
    RenderCanonical(c);
    assert HasRow(rows, id);
    k := Find(rows, id);
    TombstoneKeepsCanonical(c, rows, k);
    IntegrateGrows(c, DeleteOp(id));
    RenderCanonical(c');
    CanonicalUnique(c', Render(c'), rows[k := rows[k].(tombstoned := true)]);
  }

  /** What the pipeline reports about an operation just applied. */
  ghost function ReportedOffset(c: Content, op: Operation): int {
    Offset(Render(Integrate(c, op)), op.id)
  }

  /** What is reported of any applicable operation, new or repeated: the rank of its
      character in the sequence just reached, which is the position it is seen at if it
      is visible; -1 when there is no such character. */
  lemma ReportedIs(c: Content, op: Operation, k: nat)
    requires Rooted(c) && CanApply(c, op)
    ensures var rows, off := Render(Integrate(c, op)), ReportedOffset(c, op);
            && (0 < k < |rows| && rows[k].id == op.id ==>
                  && off == Rank(rows, k)
                  && (!rows[k].tombstoned ==> off < |Text(rows)| && Alive(rows)[off].id == op.id))
            && ((forall i :: 0 < i < |rows| ==> rows[i].id != op.id) ==> off == -1)
  {
    var c', rows := Integrate(c, op), Render(Integrate(c, op));
    IntegrateGrows(c, op);
    RenderCanonical(c');
    if 0 < k < |rows| && rows[k].id == op.id {
      FindIs(c', rows, k);
      if !rows[k].tombstoned { AliveKill(rows, k); }
    }
    if HasRow(rows, op.id) && op.id != SENTINEL_ID {
      assert rows[Find(rows, op.id)].id == op.id;
    }
  }

  lemma OffsetAt(c: Content, rows: seq<Row>, rows': seq<Row>, k: nat)
    requires Canonical(c, rows') && 0 < k < |rows'| && k <= |rows| && rows'[..k] == rows[..k]
    ensures Offset(rows', rows'[k].id) == Rank(rows, k)
  {
    FindIs(c, rows', k);
  }

  lemma InsertShows(c: Content, op: Operation)
    requires Rooted(c) && op.kind == INSERT && Effective(c, op) && CanApply(c, op)
    ensures 0 <= ReportedOffset(c, op) <= |Alive(Render(c))|
    ensures Alive(Render(Integrate(c, op))) ==
            Splice(Alive(Render(c)), ReportedOffset(c, op), Row(op.id, op.value, false, op.left))
  {
    var rows, rows', row := Render(c), Render(Integrate(c, op)), Row(op.id, op.value, false, op.left);
    var k := InsertSplices(c, op);
    RenderCanonical(Integrate(c, op));
    OffsetAt(Integrate(c, op), rows, rows', k);
    AliveSplice(rows, k, row);
  }

  lemma DeleteHides(c: Content, op: Operation)
    requires Rooted(c) && op.kind == DELETE && Effective(c, op)
    ensures 0 <= ReportedOffset(c, op) < |Alive(Render(c))|
    ensures Alive(Render(c))[ReportedOffset(c, op)] == RowOf(op.id, c[op.id])
    ensures Alive(Render(Integrate(c, op))) == Remove(Alive(Render(c)), ReportedOffset(c, op))
  {
    var rows, rows' := Render(c), Render(Integrate(c, op));
    var k := DeleteTombstones(c, op.id);
    assert Integrate(c, op) == Integrate(c, DeleteOp(op.id));
    RenderCanonical(Integrate(c, op));
    assert rows'[k].id == op.id;
    OffsetAt(Integrate(c, op), rows, rows', k);
    AliveKill(rows, k);
  }

  // --- local edits ----------------------------------------------------------

  /** Every integrated identity is at most as old as the clock. */
  predicate ClockCovers(clock: int, c: Content) {
    clock >= 0 && forall id :: id in c ==> id.clock <= clock
  }

  /** Past an operation the clock covers what the operation brings. */
  lemma TickCovers(clock: int, c: Content, op: Operation)
    requires ClockCovers(clock, c)
    ensures ClockCovers(Tick(clock, op), Integrate(c, op))
  {
  }

  /** The anchor of a local insert: the visible character left of `pos`, and the
      sentinel for any position that has none. */
  function Anchor(rows: seq<Row>, pos: int): CharID {
    VisibleId(rows, pos - 1)
  }

  function LocalInsertOp(clock: int, site: UInt32, rows: seq<Row>, pos: int, value: Byte): Operation
    requires 0 <= clock < INT32_MAX
  {
    Operation(INSERT, CharID(clock + 1, site), Anchor(rows, pos), value)
  }

  lemma AnchorPlace(c: Content, rows: seq<Row>, pos: int) returns (l: nat)
    requires Canonical(c, rows)
    ensures l < |rows| && rows[l].id == Anchor(rows, pos) && Known(c, Anchor(rows, pos))
    ensures if 0 < pos <= |Alive(rows)| then Rank(rows, l + 1) == pos
            else Rank(rows, l + 1) == 0 && Anchor(rows, pos) == SENTINEL_ID
  {
    if 0 < pos <= |Alive(rows)| {
      l := AliveAt(rows, pos - 1);
      KnownHasRow(c, rows, rows[l].id);
    } else {
      l := 0;
    }
    RankStep(rows, l);
  }

  /** The anchor is the character a user sees left of `pos`. */
  lemma AnchorIsSeen(c: Content, rows: seq<Row>, pos: int)
    requires Canonical(c, rows) && 0 < pos <= |Alive(rows)|
    ensures Anchor(rows, pos) in c && !c[Anchor(rows, pos)].dead && Offset(rows, Anchor(rows, pos)) == pos - 1
  {
    VisibleIsAlive(c, rows, pos - 1);
  }

  /** A fresh identity is larger than every sibling, so the skip loop takes no
      step and a local insert lands right after its anchor. */
  lemma FreshLandsNext(c: Content, op: Operation, l: nat)
    requires Rooted(c) && op.kind == INSERT && op.id != SENTINEL_ID
    requires forall id :: id in c ==> id.Less(op.id)
    requires l < |Render(c)| && Render(c)[l].id == op.left
    ensures !Known(c, op.id) && Known(c, op.left)
    ensures Rooted(Integrate(c, op))
    ensures Render(Integrate(c, op)) == Splice(Render(c), l + 1, Row(op.id, op.value, false, op.left))
  {
    var rows, e := Render(c), Entry(op.left, op.value, false);
    RenderCanonical(c);
    KnownHasRow(c, rows, op.left);
    if l + 1 < |rows| {
      RootUnderMeaning(c, rows[l + 1].id, op.left);
    }
    InsertKeepsCanonical(c, rows, op.id, e, l, l + 1);
    IntegrateGrows(c, op);
    RenderCanonical(Integrate(c, op));
    CanonicalUnique(Integrate(c, op), Render(Integrate(c, op)), Splice(rows, l + 1, RowOf(op.id, e)));
  }

  lemma NextIdIsLarger(clock: int, c: Content, id: CharID)
    requires ClockCovers(clock, c) && id.clock == clock + 1
    ensures id != SENTINEL_ID && forall x :: x in c ==> x.Less(id)
  {
  }

  lemma ShowsBehind(c: Content, op: Operation, l: nat)
    requires Rooted(c) && op.kind == INSERT && op.id != SENTINEL_ID
    requires forall id :: id in c ==> id.Less(op.id)
    requires l < |Render(c)| && Render(c)[l].id == op.left
    ensures !Known(c, op.id) && CanApply(c, op) && Rooted(Integrate(c, op))
    ensures Rank(Render(c), l + 1) <= |Text(Render(c))|
    ensures Text(Render(Integrate(c, op))) == Splice(Text(Render(c)), Rank(Render(c), l + 1), op.value)
  {
    FreshLandsNext(c, op, l);
    TextSplice(Render(c), l + 1, Row(op.id, op.value, false, op.left));
  }

  lemma SplicedText(text: seq<Byte>, pos: int, value: Byte)
    ensures 0 <= pos <= |text| ==> Splice(text, pos, value) == text[..pos] + [value] + text[pos..]
    ensures Splice(text, 0, value) == [value] + text
  {
  }

  /** The left neighbour a local insert names. */
  lemma LocalInsertNames(c: Content, rows: seq<Row>, pos: int)
    requires Canonical(c, rows)
    ensures var left := Anchor(rows, pos);
            if 0 < pos <= |Text(rows)| then left in c && !c[left].dead && Offset(rows, left) == pos - 1
            else left == SENTINEL_ID
  {
    if 0 < pos <= |Alive(rows)| {
      AnchorIsSeen(c, rows, pos);
    } else {
      var l := AnchorPlace(c, rows, pos);
    }
  }

  /** Local intention: an insert at `pos` gets a fresh identity, names the character
      seen left of `pos`, and puts the new one exactly there. Where no character is left
      of `pos` it names the sentinel, and outside the document it goes to the front. */
  lemma LocalInsertShows(r: Replica, site: UInt32, pos: int, value: Byte)
    requires Rooted(r.content) && ClockCovers(r.clock, r.content) && r.clock < INT32_MAX
    ensures var c, rows := r.content, Render(r.content);
            var op := LocalInsertOp(r.clock, site, rows, pos, value);
            && op.kind == INSERT && op.id == CharID(r.clock + 1, site) && op.value == value
            && (if 0 < pos <= |Text(rows)|
                then op.left in c && !c[op.left].dead && Offset(rows, op.left) == pos - 1
                else op.left == SENTINEL_ID)
            && !Known(c, op.id) && CanApply(c, op) && Rooted(Integrate(c, op))
            && ClockCovers(r.clock + 1, Integrate(c, op))
            && Text(Render(Integrate(c, op))) ==
               (if 0 <= pos <= |Text(rows)| then Text(rows)[..pos] + [value] + Text(rows)[pos..]
                else [value] + Text(rows))
  {
    var c, rows := r.content, Render(r.content);
    var op := LocalInsertOp(r.clock, site, rows, pos, value);
    RenderCanonical(c);
    var l := AnchorPlace(c, rows, pos);
    LocalInsertNames(c, rows, pos);
    NextIdIsLarger(r.clock, c, op.id);
    ShowsBehind(c, op, l);
    SplicedText(Text(rows), pos, value);
  }

  /** Local intention: a delete at `pos` names exactly the character seen there, and
      removes it. */
  lemma LocalDeleteShows(c: Content, pos: nat)
    requires Rooted(c) && pos < |Text(Render(c))|
    ensures var rows := Render(c);
            var op := DeleteOp(VisibleId(rows, pos));
            && op == Operation(DELETE, op.id, SENTINEL_ID, 0)
            && op.id in c && !c[op.id].dead && Offset(rows, op.id) == pos
            && Rooted(Integrate(c, op))
            && Text(Render(Integrate(c, op))) == Text(rows)[..pos] + Text(rows)[pos + 1..]
  {
    var rows := Render(c);
    RenderCanonical(c);
    var k := AliveAt(rows, pos);
    PositionsInvert(c, rows, pos, SENTINEL_ID);
    var m := DeleteTombstones(c, rows[k].id);
    RowsDistinct(c, rows, k, m);
    TextKill(rows, k);
  }
}
