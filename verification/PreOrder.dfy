/** An independent definition of the document: the pre-order walk of the
    left-neighbour tree, siblings in descending order of identity. */
module PreOrder {
  import opened Types
  import opened PathOrder
  import opened CanonicalOrder

  function Children(c: Content, id: CharID): set<CharID> {
    set k | k in c && c[k].left == id
  }

  predicate IsGreatest(s: set<CharID>, m: CharID) {
    m in s && forall k :: k in s ==> k == m || m.Greater(k)
  }

  lemma {:induction false} GreatestExists(s: set<CharID>)
    requires s != {}
    ensures exists m :: IsGreatest(s, m)
  {
    var x :| x in s;
    var rest := s - {x};
    if rest == {} {
      assert s == {x};
      assert IsGreatest(s, x);
    } else {
      GreatestExists(rest);
      var m :| IsGreatest(rest, m);
      var g := if m.Greater(x) then m else x;
      forall k | k in s ensures k == g || g.Greater(k) {
        OrderIsStrictAndTotal(k, m, x);
        OrderIsStrictAndTotal(x, m, k);
        assert k == x || k in rest;
      }
      assert IsGreatest(s, g);
    }
  }

  ghost function Greatest(s: set<CharID>): (m: CharID)
    requires s != {}
    ensures IsGreatest(s, m)
  {
    GreatestExists(s);
    var m :| IsGreatest(s, m); m
  }

  /** The walk from `id`, down to `depth` levels below it. */
  ghost function Walk(c: Content, id: CharID, depth: nat): seq<CharID>
    decreases depth, 0
  {
    [id] + if depth == 0 then [] else WalkAll(c, Children(c, id), depth - 1)
  }

  ghost function WalkAll(c: Content, ids: set<CharID>, depth: nat): seq<CharID>
    decreases depth, |ids| + 1
  {
    if ids == {} then []
    else
      var m := Greatest(ids);
      Walk(c, m, depth) + WalkAll(c, ids - {m}, depth)
  }

  ghost function DocumentIds(c: Content): seq<CharID> {
    Walk(c, SENTINEL_ID, |c|)
  }

  /** The rows a replica with content `c` holds, computed from `c` alone. */
  ghost function Render(c: Content): (rows: seq<Row>) {
    var ids := DocumentIds(c);
    seq(|ids|, i requires 0 <= i < |ids| => if ids[i] in c then RowOf(ids[i], c[ids[i]]) else SENTINEL_ROW)
  }

  // --- what a walk visits ---------------------------------------------------

  /** `x` is below `p`, at most `depth` levels down. */
  ghost predicate Within(c: Content, p: Path, depth: int, x: CharID)
    requires Rooted(c)
  {
    Known(c, x) && p <= PathOf(c, x) && |PathOf(c, x)| <= |p| + depth
  }

  /** The children of one node that a partial walk still has to visit. */
  ghost predicate Siblings(c: Content, p: Path, ids: set<CharID>)
    requires Rooted(c)
  {
    forall k :: k in ids ==> k in c && PathOf(c, k) == p + [k]
  }

  /** `x` is below one of `ids`. */
  ghost predicate WithinSome(c: Content, p: Path, ids: set<CharID>, depth: int, x: CharID)
    requires Rooted(c)
  {
    && Known(c, x) && |p| < |PathOf(c, x)| <= |p| + 1 + depth
    && p <= PathOf(c, x) && PathOf(c, x)[|p|] in ids
  }

  lemma ChildrenAreSiblings(c: Content, id: CharID)
    requires Rooted(c) && Known(c, id)
    ensures Siblings(c, PathOf(c, id), Children(c, id))
  {
    forall k | k in Children(c, id) ensures PathOf(c, k) == PathOf(c, id) + [k] {
      PathStep(c, k);
    }
  }

  lemma WithinChild(c: Content, id: CharID, depth: nat, x: CharID)
    requires Rooted(c) && Known(c, id) && depth > 0
    ensures Within(c, PathOf(c, id), depth, x)
       <==> x == id || WithinSome(c, PathOf(c, id), Children(c, id), depth - 1, x)
  {
    var p := PathOf(c, id);
    if Known(c, x) && p <= PathOf(c, x) {
      var q := PathOf(c, x);
      if p == q {
        PathInjective(c, id, x);
      } else {
        PathPrefix(c, x, |p|);
        assert IsStep(c, q, |p|);
        PathInjective(c, id, Above(q, |p|));
      }
    }
  }

  ghost predicate WalkOk(c: Content, id: CharID, depth: nat)
    requires Rooted(c) && Known(c, id)
  {
    && SortedIds(c, Walk(c, id, depth))
    && forall x :: x in Walk(c, id, depth) <==> Within(c, PathOf(c, id), depth, x)
  }

  ghost predicate WalkAllOk(c: Content, p: Path, ids: set<CharID>, depth: nat)
    requires Rooted(c)
  {
    && SortedIds(c, WalkAll(c, ids, depth))
    && forall x :: x in WalkAll(c, ids, depth) <==> WithinSome(c, p, ids, depth, x)
  }

  lemma {:induction false} WalkSorted(c: Content, id: CharID, depth: nat)
    requires Rooted(c) && Known(c, id)
    ensures WalkOk(c, id, depth)
    decreases depth, 0
  {
    var p, w := PathOf(c, id), Walk(c, id, depth);
    if depth == 0 {
      forall x ensures x in w <==> Within(c, p, 0, x) {
        if Within(c, p, 0, x) { PathInjective(c, id, x); }
      }
    } else {
      var below := WalkAll(c, Children(c, id), depth - 1);
      ChildrenAreSiblings(c, id);
      WalkAllSorted(c, p, Children(c, id), depth - 1);
      forall x ensures x in w <==> Within(c, p, depth, x) {
        WithinChild(c, id, depth, x);
      }
      forall j | 0 <= j < |below| ensures Before(c, id, below[j]) {
        assert below[j] in below;
        PrefixPrecedes(p, PathOf(c, below[j]));
      }
      SortedConcat(c, [id], below);
    }
  }

  lemma SplitSiblings(c: Content, p: Path, ids: set<CharID>, m: CharID, depth: nat, x: CharID)
    requires Rooted(c) && Siblings(c, p, ids) && m in ids
    ensures WithinSome(c, p, ids, depth, x)
       <==> Within(c, p + [m], depth, x) || WithinSome(c, p, ids - {m}, depth, x)
  {
    if Known(c, x) && |p| < |PathOf(c, x)| && p <= PathOf(c, x) {
      var q := PathOf(c, x);
      assert p + [m] <= q <==> q[|p|] == m;
    }
  }

  lemma BranchesInOrder(c: Content, p: Path, m: CharID, ids: set<CharID>, depth: nat, x: CharID, y: CharID)
    requires Rooted(c) && IsGreatest(ids, m)
    requires Within(c, p + [m], depth, x) && WithinSome(c, p, ids - {m}, depth, y)
    ensures Before(c, x, y)
  {
    var q, r := PathOf(c, x), PathOf(c, y);
    SiblingsPrecede(p, m, r[|p|], q[|p| + 1..], r[|p| + 1..]);
    assert q == p + [m] + q[|p| + 1..];
    assert r == p + [r[|p|]] + r[|p| + 1..];
  }

  lemma {:induction false} WalkAllSorted(c: Content, p: Path, ids: set<CharID>, depth: nat)
    requires Rooted(c) && Siblings(c, p, ids)
    ensures WalkAllOk(c, p, ids, depth)
    decreases depth, |ids| + 1
  {
    if ids != {} {
      var m := Greatest(ids);
      var a, b := Walk(c, m, depth), WalkAll(c, ids - {m}, depth);
      WalkSorted(c, m, depth);
      WalkAllSorted(c, p, ids - {m}, depth);
      forall x ensures x in a + b <==> WithinSome(c, p, ids, depth, x) {
        SplitSiblings(c, p, ids, m, depth, x);
      }
      forall i, j | 0 <= i < |a| && 0 <= j < |b| ensures Before(c, a[i], b[j]) {
        assert a[i] in a && b[j] in b;
        BranchesInOrder(c, p, m, ids, depth, a[i], b[j]);
      }
      SortedConcat(c, a, b);
      assert WalkAll(c, ids, depth) == a + b;
    }
  }

  lemma SortedConcat(c: Content, a: seq<CharID>, b: seq<CharID>)
    requires Rooted(c) && SortedIds(c, a) && SortedIds(c, b)
    requires forall i, j :: 0 <= i < |a| && 0 <= j < |b| ==> Before(c, a[i], b[j])
    ensures SortedIds(c, a + b)
  {
  }

  // --- the depth bound ------------------------------------------------------

  lemma {:induction false} DistinctFits(p: seq<CharID>, s: set<CharID>)
    requires forall i :: 0 <= i < |p| ==> p[i] in s
    requires forall i, j :: 0 <= i < j < |p| ==> p[i] != p[j]
    ensures |p| <= |s|
  {
    if p != [] {
      var last := p[|p| - 1];
      DistinctFits(p[..|p| - 1], s - {last});
      assert |s - {last}| == |s| - 1;
    }
  }

  lemma PathFits(c: Content, id: CharID)
    requires Rooted(c) && Known(c, id)
    ensures |PathOf(c, id)| <= |c|
  {
    var p := PathOf(c, id);
    forall i, j | 0 <= i < j < |p| ensures p[i] != p[j] {
      PathPrefix(c, id, i + 1);
      PathPrefix(c, id, j + 1);
      assert |p[..i + 1]| != |p[..j + 1]|;
    }
    forall i | 0 <= i < |p| ensures p[i] in c.Keys {
      assert IsStep(c, p, i);
    }
    DistinctFits(p, c.Keys);
  }

  // --- the theorem ----------------------------------------------------------

  lemma DocumentIdsSorted(c: Content)
    requires Rooted(c)
    ensures SortedIds(c, DocumentIds(c))
    ensures forall x :: x in DocumentIds(c) <==> Known(c, x)
  {
    WalkSorted(c, SENTINEL_ID, |c|);
    forall x ensures x in DocumentIds(c) <==> Known(c, x) {
      if Known(c, x) { PathFits(c, x); }
    }
  }

  /** The walk yields a canonical sequence. */
  lemma RenderCanonical(c: Content)
    requires Rooted(c)
    ensures Canonical(c, Render(c))
  {
    DocumentIdsSorted(c);
    var ids, rows := DocumentIds(c), Render(c);
    assert ids[0] == SENTINEL_ID;
    forall i | 0 <= i < |ids| ensures rows[i].id == ids[i] && (i > 0 ==> ids[i] in c) {
      assert ids[i] in ids;
      assert i > 0 ==> Before(c, ids[0], ids[i]);
      PrecedesIrreflexive([]);
    }
    forall x | x in c ensures HasRow(rows, x) {
      assert x in ids;
      var i :| 0 <= i < |ids| && ids[i] == x;
      assert rows[i].id == x;
    }
    assert Lists(c, rows);
    forall i, j | 0 <= i < j < |rows| ensures Before(c, rows[i].id, rows[j].id) {
      assert Before(c, ids[i], ids[j]);
    }
  }

  /** A canonical sequence is the pre-order walk, and nothing else is. */
  lemma CanonicalIsPreOrder(c: Content, rows: seq<Row>)
    ensures Canonical(c, rows) <==> Rooted(c) && rows == Render(c)
  {
    if Rooted(c) {
      RenderCanonical(c);
      if Canonical(c, rows) { CanonicalUnique(c, rows, Render(c)); }
    }
  }
}
