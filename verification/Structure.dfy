/** What the canonical order means to a reader of the document: it only grows,
    subtrees stay together, and runs typed by different sites do not mix. */
module Structure {
  import opened Types
  import opened PathOrder
  import opened CanonicalOrder
  import opened PreOrder
  import opened Visible

  // --- growth ---------------------------------------------------------------

  /** The identities of `s` that `c` already knows, in the order of `s`. */
  function Restrict(s: seq<CharID>, c: Content): seq<CharID> {
    if s == [] then []
    else (if Known(c, s[0]) then [s[0]] else []) + Restrict(s[1..], c)
  }

  lemma {:induction false} RestrictElements(s: seq<CharID>, c: Content, id: CharID)
    ensures id in Restrict(s, c) <==> id in s && Known(c, id)
  {
    if s != [] {
      RestrictElements(s[1..], c, id);
      assert s == [s[0]] + s[1..];
    }
  }

  lemma {:induction false} RestrictSorted(c: Content, c': Content, s: seq<CharID>)
    requires Rooted(c) && Rooted(c') && KeepsLefts(c, c') && SortedIds(c', s)
    ensures SortedIds(c, Restrict(s, c))
  {
    if s != [] {
      SortedTail(c', s);
      var rest := Restrict(s[1..], c);
      RestrictSorted(c, c', s[1..]);
      if Known(c, s[0]) {
        forall j | 0 <= j < |rest| ensures Before(c, s[0], rest[j]) {
          RestrictElements(s[1..], c, rest[j]);
          var k :| 0 <= k < |s[1..]| && s[1..][k] == rest[j];
          assert Before(c', s[0], s[k + 1]);
          PathStable(c, c', s[0]);
          PathStable(c, c', rest[j]);
        }
      }
    }
  }

  /** However much is integrated later, the characters integrated now keep their
      relative order: the old sequence is the new one restricted to them. */
  lemma OrderOnlyGrows(c: Content, c': Content, rows: seq<Row>, rows': seq<Row>)
    requires Canonical(c, rows) && Canonical(c', rows') && KeepsLefts(c, c')
    ensures Restrict(Ids(rows'), c) == Ids(rows)
  {
    CanonicalIds(c, rows);
    CanonicalIds(c', rows');
    RestrictSorted(c, c', Ids(rows'));
    forall id ensures id in Restrict(Ids(rows'), c) <==> id in Ids(rows) {
      RestrictElements(Ids(rows'), c, id);
    }
    SortedUnique(c, Restrict(Ids(rows'), c), Ids(rows));
  }

  // --- contiguous subtrees --------------------------------------------------

  lemma BetweenDescendants(t: Path, a: Path, x: Path, b: Path)
    requires t <= a && t <= b && Precedes(a, x) && Precedes(x, b)
    ensures t <= x
  {
    PrecedesAsymmetric(x, b);
    if t != a {
      PrefixPrecedes(t, a);
      PrecedesTransitive(t, a, x);
    }
    assert t + b[|t|..] == b && x + [] == x;
    if !(t <= x) {
      PrecedesExtends(t, x, b[|t|..], []);
    }
  }

  lemma SubtreesContiguous(c: Content, rows: seq<Row>, top: CharID, i: nat, k: nat, j: nat)
    requires Canonical(c, rows) && Known(c, top) && i < k < j < |rows|
    requires Under(c, top, rows[i].id) && Under(c, top, rows[j].id)
    ensures Under(c, top, rows[k].id)
  {
    assert Before(c, rows[i].id, rows[k].id) && Before(c, rows[k].id, rows[j].id);
    BetweenDescendants(PathOf(c, top), PathOf(c, rows[i].id), PathOf(c, rows[k].id), PathOf(c, rows[j].id));
  }

  // --- siblings ---------------------------------------------------------------

  /** Of two characters with one left neighbour the one with the newer clock stands
      first, and on equal clocks the one of the larger site; each with its subtree. */
  lemma SubtreesOrdered(c: Content, rows: seq<Row>, a: CharID, b: CharID, i: nat, j: nat)
    requires Canonical(c, rows) && a in c && b in c && a != b && c[a].left == c[b].left
    requires i < |rows| && j < |rows| && Under(c, a, rows[i].id) && Under(c, b, rows[j].id)
    ensures i < j <==> a.clock > b.clock || (a.clock == b.clock && a.siteID > b.siteID)
  {
    PathStep(c, a);
    var p, q, r := PathOf(c, rows[i].id), PathOf(c, rows[j].id), PathOf(c, c[a].left);
    PathStep(c, b);
    assert p == r + [a] + p[|r| + 1..] && q == r + [b] + q[|r| + 1..];
    OrderIsStrictAndTotal(a, b, a);
    SortedPosition(c, rows, i, j);
    SortedPosition(c, rows, j, i);
    if a.Greater(b) {
      SiblingsPrecede(r, a, b, p[|r| + 1..], q[|r| + 1..]);
    } else {
      SiblingsPrecede(r, b, a, q[|r| + 1..], p[|r| + 1..]);
    }
  }

  /** The same on the text a reader sees. */
  lemma SiblingsInText(c: Content, a: CharID, b: CharID)
    requires Rooted(c) && a in c && b in c && a != b && c[a].left == c[b].left && !c[a].dead && !c[b].dead
    ensures var rows := Render(c);
            var i, j := Offset(rows, a), Offset(rows, b);
            && 0 <= i < |Text(rows)| && Text(rows)[i] == c[a].value
            && 0 <= j < |Text(rows)| && Text(rows)[j] == c[b].value
            && (i < j <==> a.clock > b.clock || (a.clock == b.clock && a.siteID > b.siteID))
  {
    var rows := Render(c);
    RenderCanonical(c);
    var k := ShownRow(c, rows, a);
    var l := ShownRow(c, rows, b);
    SubtreesOrdered(c, rows, a, b, k, l);
    if k < l {
      RankIncreases(rows, k, l);
    } else {
      RankIncreases(rows, l, k);
    }
  }

  lemma ShownRow(c: Content, rows: seq<Row>, id: CharID) returns (k: nat)
    requires Canonical(c, rows) && id in c && !c[id].dead
    ensures k < |rows| && rows[k].id == id && !rows[k].tombstoned && Offset(rows, id) == Rank(rows, k)
    ensures Rank(rows, k) < |Text(rows)| && Text(rows)[Rank(rows, k)] == c[id].value
  {
    KnownHasRow(c, rows, id);
    k := Find(rows, id);
    AliveKill(rows, k);
  }

  // --- runs -----------------------------------------------------------------

  function Prior(anchor: CharID, run: seq<CharID>, k: nat): CharID
    requires k <= |run|
  {
    if k == 0 then anchor else run[k - 1]
  }

  /** Characters typed one after the other, starting right of `anchor`. */
  ghost predicate IsRun(c: Content, anchor: CharID, run: seq<CharID>) {
    && Known(c, anchor) && run != []
    && forall k :: 0 <= k < |run| ==>
         run[k] in c && c[run[k]].left == Prior(anchor, run, k)
  }

  lemma {:induction false} RunPath(c: Content, anchor: CharID, run: seq<CharID>, k: nat)
    requires Rooted(c) && IsRun(c, anchor, run) && k < |run|
    ensures PathOf(c, run[k]) == PathOf(c, anchor) + run[..k + 1]
  {
    var r, id := PathOf(c, anchor), run[k];
    PathStep(c, id);
    if k == 0 {
      assert c[id].left == anchor;
      assert run[..k + 1] == [id];
    } else {
      RunPath(c, anchor, run, k - 1);
      assert c[id].left == run[k - 1];
      assert r + run[..k + 1] == r + run[..k] + [id];
    }
  }

  lemma PrefixKept(r: Path, s: Path, m: nat, n: nat)
    requires m <= n <= |s|
    ensures r + s[..m] <= r + s[..n]
  {
    assert (r + s[..n])[..|r| + m] == r + s[..m];
  }

  lemma RunIsUnder(c: Content, anchor: CharID, run: seq<CharID>, k: nat)
    requires Rooted(c) && IsRun(c, anchor, run) && k < |run|
    ensures run[0] in c && run[k] in c && c[run[0]].left == anchor && Under(c, run[0], run[k])
  {
    RunPath(c, anchor, run, 0);
    RunPath(c, anchor, run, k);
    PrefixKept(PathOf(c, anchor), run, 1, k + 1);
  }

  /** Two runs typed at the same anchor never interleave: in every canonical sequence
      all of one comes before all of the other, and the one whose first character has
      the newer clock, or on equal clocks the larger site, comes first. */
  lemma RunsNeverInterleave(c: Content, rows: seq<Row>, anchor: CharID, a: seq<CharID>, b: seq<CharID>)
    requires Canonical(c, rows) && IsRun(c, anchor, a) && IsRun(c, anchor, b) && a[0] != b[0]
    ensures forall i, j :: 0 <= i < |rows| && 0 <= j < |rows| && rows[i].id in a && rows[j].id in b ==>
              (i < j <==> a[0].clock > b[0].clock || (a[0].clock == b[0].clock && a[0].siteID > b[0].siteID))
  {
    forall i, j | 0 <= i < |rows| && 0 <= j < |rows| && rows[i].id in a && rows[j].id in b
      ensures i < j <==> a[0].clock > b[0].clock || (a[0].clock == b[0].clock && a[0].siteID > b[0].siteID)
    {
      var m :| 0 <= m < |a| && a[m] == rows[i].id;
      var n :| 0 <= n < |b| && b[n] == rows[j].id;
      RunIsUnder(c, anchor, a, m);
      RunIsUnder(c, anchor, b, n);
      SubtreesOrdered(c, rows, a[0], b[0], i, j);
    }
  }
}
