/** The one document order: a content has exactly one sequence of rows that is
    strictly sorted by path, and the local scan of `insertNode` preserves it. */
module CanonicalOrder {
  import opened Types
  import opened PathOrder

  predicate HasRow(rows: seq<Row>, id: CharID) {
    exists i :: 0 <= i < |rows| && rows[i].id == id
  }

  /** `rows` is the sentinel followed by the characters of `c` in document order. */
  ghost predicate Canonical(c: Content, rows: seq<Row>) {
    && Rooted(c)
    && Lists(c, rows)
    && SortedBy(c, rows)
  }

  ghost predicate Lists(c: Content, rows: seq<Row>) {
    && |rows| > 0 && rows[0] == SENTINEL_ROW
    && (forall i :: 0 < i < |rows| ==> rows[i].id in c && rows[i] == RowOf(rows[i].id, c[rows[i].id]))
    && (forall id {:trigger HasRow(rows, id)} :: id in c ==> HasRow(rows, id))
  }

  ghost predicate SortedBy(c: Content, rows: seq<Row>)
    requires Rooted(c) && Lists(c, rows)
  {
    forall i, j {:trigger Before(c, rows[i].id, rows[j].id)} ::
      0 <= i < j < |rows| ==> Before(c, rows[i].id, rows[j].id)
  }

  function Find(rows: seq<Row>, id: CharID): (k: nat)
    requires HasRow(rows, id)
    ensures k < |rows| && rows[k].id == id
    ensures forall i :: 0 <= i < k ==> rows[i].id != id
  {
    if rows[0].id == id then 0 else
      assert HasRow(rows[1..], id) by {
        var i :| 0 <= i < |rows| && rows[i].id == id;
        assert rows[1..][i - 1].id == id;
      }
      1 + Find(rows[1..], id)
  }

  /** Row `k` is the first one with this identity. */
  predicate FirstWith(rows: seq<Row>, id: CharID, k: nat)
    requires k < |rows|
  {
    rows[k].id == id && forall i :: 0 <= i < k ==> rows[i].id != id
  }

  lemma KnownHasRow(c: Content, rows: seq<Row>, id: CharID)
    requires Canonical(c, rows)
    ensures Known(c, id) <==> HasRow(rows, id)
  {
    if id == SENTINEL_ID {
      assert rows[0].id == id;
    } else if HasRow(rows, id) {
      var i :| 0 <= i < |rows| && rows[i].id == id;
    }
  }

  lemma SortedPosition(c: Content, rows: seq<Row>, i: nat, j: nat)
    requires Canonical(c, rows) && i < |rows| && j < |rows|
    ensures i < j <==> Before(c, rows[i].id, rows[j].id)
  {
    if i == j {
      PrecedesIrreflexive(PathOf(c, rows[i].id));
    } else if j < i {
      assert Before(c, rows[j].id, rows[i].id);
      PrecedesAsymmetric(PathOf(c, rows[j].id), PathOf(c, rows[i].id));
    }
  }

  lemma RowsDistinct(c: Content, rows: seq<Row>, i: nat, j: nat)
    requires Canonical(c, rows) && i < |rows| && j < |rows|
    ensures rows[i].id == rows[j].id ==> i == j
  {
    SortedPosition(c, rows, i, j);
    SortedPosition(c, rows, j, i);
    PrecedesIrreflexive(PathOf(c, rows[i].id));
  }

  // --- uniqueness -----------------------------------------------------------

  ghost predicate SortedIds(c: Content, s: seq<CharID>)
    requires Rooted(c)
  {
    && (forall i :: 0 <= i < |s| ==> Known(c, s[i]))
    && (forall i, j {:trigger Before(c, s[i], s[j])} :: 0 <= i < j < |s| ==> Before(c, s[i], s[j]))
  }

  lemma SortedHead(c: Content, s: seq<CharID>, t: seq<CharID>)
    requires Rooted(c) && SortedIds(c, s) && SortedIds(c, t) && s != [] && t != []
    requires s[0] in t && t[0] in s
    ensures s[0] == t[0]
  {
    var i :| 0 <= i < |t| && t[i] == s[0];
    var j :| 0 <= j < |s| && s[j] == t[0];
    if i != 0 && j != 0 {
      assert Before(c, t[0], t[i]) && Before(c, s[0], s[j]);
      PrecedesAsymmetric(PathOf(c, s[0]), PathOf(c, t[0]));
    }
  }

  lemma SortedTail(c: Content, s: seq<CharID>)
    requires Rooted(c) && SortedIds(c, s) && s != []
    ensures SortedIds(c, s[1..]) && s[0] !in s[1..]
    ensures forall id :: id in s <==> id == s[0] || id in s[1..]
  {
    PrecedesIrreflexive(PathOf(c, s[0]));
    forall i | 0 <= i < |s[1..]| ensures s[1..][i] != s[0] {
      assert Before(c, s[0], s[i + 1]);
    }
    assert s == [s[0]] + s[1..];
  }

  /** A set of characters has only one strictly sorted sequence. */
  lemma {:induction false} SortedUnique(c: Content, s: seq<CharID>, t: seq<CharID>)
    requires Rooted(c) && SortedIds(c, s) && SortedIds(c, t)
    requires forall id :: id in s <==> id in t
    ensures s == t
  {
    assert s != [] ==> s[0] in t;
    assert t != [] ==> t[0] in s;
    if s != [] {
      SortedHead(c, s, t);
      SortedTail(c, s);
      SortedTail(c, t);
      forall id ensures id in s[1..] <==> id in t[1..] {
        assert id in s <==> id in t;
      }
      SortedUnique(c, s[1..], t[1..]);
      assert s == [s[0]] + s[1..] && t == [t[0]] + t[1..];
    }
  }

  function Ids(rows: seq<Row>): (s: seq<CharID>)
    ensures |s| == |rows|
    ensures forall i :: 0 <= i < |rows| ==> s[i] == rows[i].id
  {
    seq(|rows|, i requires 0 <= i < |rows| => rows[i].id)
  }

  lemma CanonicalIds(c: Content, rows: seq<Row>)
    requires Canonical(c, rows)
    ensures SortedIds(c, Ids(rows))
    ensures forall id :: id in Ids(rows) <==> Known(c, id)
  {
    forall id ensures id in Ids(rows) <==> Known(c, id) {
      KnownHasRow(c, rows, id);
      if HasRow(rows, id) {
        var i :| 0 <= i < |rows| && rows[i].id == id;
        assert Ids(rows)[i] == id;
      }
    }
  }

  /** Two replicas with the same content hold the same sequence, tombstones included. */
  lemma CanonicalUnique(c: Content, rows: seq<Row>, rows': seq<Row>)
    requires Canonical(c, rows) && Canonical(c, rows')
    ensures rows == rows'
  {
    CanonicalIds(c, rows);
    CanonicalIds(c, rows');
    SortedUnique(c, Ids(rows), Ids(rows'));
    forall i | 0 <= i < |rows| ensures rows[i] == rows'[i] {
      assert Ids(rows)[i] == Ids(rows')[i];
    }
  }

  // --- insertNode -----------------------------------------------------------

  /** The guard of the skip loop: the node at hand is below `left` through a
      larger child than the new one. */
  ghost predicate Skips(c: Content, id: CharID, left: CharID, newID: CharID)
    requires Rooted(c) && Known(c, id) && Known(c, left)
  {
    var root := RootUnder(c, id, left);
    root != SENTINEL_ID && root.Greater(newID)
  }

  lemma SkippedIsBefore(c: Content, id: CharID, left: CharID, newID: CharID)
    requires Rooted(c) && Known(c, id) && Known(c, left)
    requires Skips(c, id, left, newID)
    ensures Precedes(PathOf(c, id), PathOf(c, left) + [newID])
  {
    var p, t := PathOf(c, id), PathOf(c, left);
    var r := p[|t|];
    SiblingsPrecede(t, r, newID, p[|t| + 1..], []);
    assert p == t + [r] + p[|t| + 1..];
    assert t + [newID] + [] == t + [newID];
  }

  lemma StoppedIsAfter(c: Content, id: CharID, left: CharID, newID: CharID)
    requires Rooted(c) && Known(c, id) && Known(c, left) && !Known(c, newID)
    requires Before(c, left, id) && !Skips(c, id, left, newID)
    ensures Precedes(PathOf(c, left) + [newID], PathOf(c, id))
  {
    var p, t := PathOf(c, id), PathOf(c, left);
    if t <= p {
      PrecedesIrreflexive(p);
      var r := p[|t|];
      assert IsStep(c, p, |t|);
      SiblingsPrecede(t, newID, r, [], p[|t| + 1..]);
      assert p == t + [r] + p[|t| + 1..];
      assert t + [newID] + [] == t + [newID];
    } else {
      PrecedesExtends(t, p, [newID], []);
      assert p + [] == p;
    }
  }

  function Splice<T>(s: seq<T>, k: nat, x: T): (r: seq<T>)
    requires k <= |s|
    ensures |r| == |s| + 1
    ensures forall i {:trigger r[i]} :: 0 <= i < |r| ==> r[i] == if i < k then s[i] else if i == k then x else s[i - 1]
  {
    s[..k] + [x] + s[k..]
  }

  /** The place where the skip loop stops. */
  ghost predicate ScanStopsAt(c: Content, rows: seq<Row>, left: CharID, newID: CharID, l: nat, k: nat)
    requires Canonical(c, rows) && Known(c, left)
  {
    && l < k <= |rows| && rows[l].id == left
    && (forall i :: l < i < k ==> Skips(c, rows[i].id, left, newID))
    && (k < |rows| ==> !Skips(c, rows[k].id, left, newID))
  }

  /** `p` separates the first `k` rows from the others. */
  ghost predicate Splits(c: Content, rows: seq<Row>, p: Path, k: nat)
    requires Rooted(c) && Lists(c, rows) && k <= |rows|
  {
    && (forall i :: 0 <= i < k ==> Precedes(PathOf(c, rows[i].id), p))
    && (forall i :: k <= i < |rows| ==> Precedes(p, PathOf(c, rows[i].id)))
  }

  lemma ScanSplits(c: Content, rows: seq<Row>, left: CharID, newID: CharID, l: nat, k: nat)
    requires Canonical(c, rows) && Known(c, left) && !Known(c, newID)
    requires ScanStopsAt(c, rows, left, newID, l, k)
    ensures Splits(c, rows, PathOf(c, left) + [newID], k)
  {
    var p := PathOf(c, left) + [newID];
    PrefixPrecedes(PathOf(c, left), p);
    forall i | 0 <= i < k ensures Precedes(PathOf(c, rows[i].id), p) {
      if i < l {
        assert Before(c, rows[i].id, rows[l].id);
        PrecedesTransitive(PathOf(c, rows[i].id), PathOf(c, left), p);
      } else if l < i {
        SkippedIsBefore(c, rows[i].id, left, newID);
      }
    }
    if k < |rows| {
      assert Before(c, rows[l].id, rows[k].id);
      StoppedIsAfter(c, rows[k].id, left, newID);
      forall i | k < i < |rows| ensures Precedes(p, PathOf(c, rows[i].id)) {
        assert Before(c, rows[k].id, rows[i].id);
        PrecedesTransitive(p, PathOf(c, rows[k].id), PathOf(c, rows[i].id));
      }
    }
  }

  lemma SpliceLists(c: Content, rows: seq<Row>, id: CharID, e: Entry, k: nat)
    requires Lists(c, rows) && !Known(c, id) && 0 < k <= |rows|
    ensures Lists(c[id := e], Splice(rows, k, RowOf(id, e)))
  {
    var rows' := Splice(rows, k, RowOf(id, e));
    forall x | x in c[id := e] ensures HasRow(rows', x) {
      if x == id {
        assert rows'[k].id == x;
      } else {
        assert HasRow(rows, x);
        var i :| 0 <= i < |rows| && rows[i].id == x;
        assert rows'[if i < k then i else i + 1].id == x;
      }
    }
  }

  /** The local scan of `insertNode` lands at the new character's place in the
      global order, wherever that is. */
  lemma InsertKeepsCanonical(c: Content, rows: seq<Row>, id: CharID, e: Entry, l: nat, k: nat)
    requires Canonical(c, rows) && !Known(c, id) && Known(c, e.left)
    requires ScanStopsAt(c, rows, e.left, id, l, k)
    ensures Canonical(c[id := e], Splice(rows, k, RowOf(id, e)))
  {
    var c', rows' := c[id := e], Splice(rows, k, RowOf(id, e));
    RootedLeaf(c, id, e);
    SpliceLists(c, rows, id, e, k);
    ScanSplits(c, rows, e.left, id, l, k);
    forall i | 0 <= i < |rows| ensures PathOf(c', rows[i].id) == PathOf(c, rows[i].id) {
      PathStable(c, c', rows[i].id);
    }
    forall i, j | 0 <= i < j < |rows'| ensures Before(c', rows'[i].id, rows'[j].id) {
      var i', j' := if i < k then i else i - 1, if j < k then j else j - 1;
      assert i < j && i != k && j != k ==> Before(c, rows[i'].id, rows[j'].id);
    }
  }

  // --- tombstones -----------------------------------------------------------

  lemma TombstoneLists(c: Content, rows: seq<Row>, k: nat)
    requires Canonical(c, rows) && 0 < k < |rows|
    ensures var id := rows[k].id;
            Lists(c[id := c[id].(dead := true)], rows[k := rows[k].(tombstoned := true)])
  {
    var id := rows[k].id;
    var c', rows' := c[id := c[id].(dead := true)], rows[k := rows[k].(tombstoned := true)];
    forall i | 0 < i < |rows'| ensures rows'[i].id in c' && rows'[i] == RowOf(rows'[i].id, c'[rows'[i].id]) {
      RowsDistinct(c, rows, i, k);
    }
    forall x | x in c' ensures HasRow(rows', x) {
      assert HasRow(rows, x);
      var i :| 0 <= i < |rows| && rows[i].id == x;
      assert rows'[i].id == x;
    }
  }

  /** The order depends on the left neighbours alone. */
  lemma SameLeftsSorted(c: Content, c': Content, rows: seq<Row>, rows': seq<Row>)
    requires Canonical(c, rows) && KeepsLefts(c, c') && Rooted(c') && Lists(c', rows') && Ids(rows') == Ids(rows)
    ensures SortedBy(c', rows')
  {
    CanonicalIds(c, rows);
    forall i, j | 0 <= i < j < |rows'| ensures Before(c', rows'[i].id, rows'[j].id) {
      assert Ids(rows')[i] == Ids(rows)[i] && Ids(rows')[j] == Ids(rows)[j];
      PathStable(c, c', rows[i].id);
      PathStable(c, c', rows[j].id);
      assert Before(c, rows[i].id, rows[j].id);
    }
  }

  lemma TombstoneKeepsCanonical(c: Content, rows: seq<Row>, k: nat)
    requires Canonical(c, rows) && 0 < k < |rows|
    ensures var id := rows[k].id;
            Canonical(c[id := c[id].(dead := true)], rows[k := rows[k].(tombstoned := true)])
  {
    var id := rows[k].id;
    var c', rows' := c[id := c[id].(dead := true)], rows[k := rows[k].(tombstoned := true)];
    RootedSameLefts(c, c');
    TombstoneLists(c, rows, k);
    assert Ids(rows') == Ids(rows);
    SameLeftsSorted(c, c', rows, rows');
  }

  lemma EmptyCanonical()
    ensures Canonical(map[], [SENTINEL_ROW])
  {
  }
}
