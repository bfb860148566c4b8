/** Every inserted character hangs below its left neighbour, so the integrated
    characters form a tree rooted at the sentinel. This module orders the nodes
    of that tree by their paths from the root. */
module PathOrder {
  import opened Types

  type Path = seq<CharID>

  /** Document order on paths: an ancestor comes first, and of two branches the
      one with the larger identity comes first. */
  predicate Precedes(p: Path, q: Path) {
    q != [] &&
    (p == [] ||
     (if p[0] == q[0] then Precedes(p[1..], q[1..]) else p[0].Greater(q[0])))
  }

  lemma {:induction false} PrecedesTransitive(p: Path, q: Path, r: Path)
    requires Precedes(p, q) && Precedes(q, r)
    ensures Precedes(p, r)
  {
    if p != [] && p[0] == q[0] == r[0] {
      PrecedesTransitive(p[1..], q[1..], r[1..]);
    }
  }

  lemma {:induction false} PrecedesIrreflexive(p: Path)
    ensures !Precedes(p, p)
  {
    if p != [] {
      PrecedesIrreflexive(p[1..]);
    }
  }

  lemma PrecedesAsymmetric(p: Path, q: Path)
    requires Precedes(p, q)
    ensures !Precedes(q, p) && p != q
  {
    PrecedesIrreflexive(p);
    if Precedes(q, p) {
      PrecedesTransitive(p, q, p);
    }
  }

  lemma {:induction false} PrecedesTotal(p: Path, q: Path)
    ensures p == q || Precedes(p, q) || Precedes(q, p)
  {
    if p != [] && q != [] && p[0] == q[0] {
      PrecedesTotal(p[1..], q[1..]);
      assert p == [p[0]] + p[1..] && q == [q[0]] + q[1..];
    }
  }

  lemma {:induction false} PrecedesUnderPrefix(r: Path, p: Path, q: Path)
    ensures Precedes(r + p, r + q) == Precedes(p, q)
  {
    if r == [] {
      assert r + p == p && r + q == q;
    } else {
      assert (r + p)[1..] == r[1..] + p && (r + q)[1..] == r[1..] + q;
      PrecedesUnderPrefix(r[1..], p, q);
    }
  }

  /** Where two paths part decides, whatever follows. */
  lemma {:induction false} PrecedesExtends(p: Path, q: Path, s: Path, t: Path)
    requires Precedes(p, q) && !(p <= q)
    ensures Precedes(p + s, q + t)
  {
    if p[0] == q[0] {
      assert !(p[1..] <= q[1..]) by {
        assert p == [p[0]] + p[1..] && q == [q[0]] + q[1..];
      }
      PrecedesExtends(p[1..], q[1..], s, t);
      assert (p + s)[1..] == p[1..] + s && (q + t)[1..] == q[1..] + t;
    }
  }

  lemma SiblingsPrecede(r: Path, a: CharID, b: CharID, s: Path, t: Path)
    requires a.Greater(b)
    ensures Precedes(r + [a] + s, r + [b] + t)
  {
    PrecedesUnderPrefix(r, [a] + s, [b] + t);
    assert r + ([a] + s) == r + [a] + s && r + ([b] + t) == r + [b] + t;
  }

  lemma PrefixPrecedes(p: Path, q: Path)
    requires p < q
    ensures Precedes(p, q)
  {
    PrecedesUnderPrefix(p, [], q[|p|..]);
    assert p + [] == p && p + q[|p|..] == q;
  }

  /** The node just above position `k` of a path. */
  function Above(p: Path, k: nat): CharID
    requires k <= |p|
  {
    if k == 0 then SENTINEL_ID else p[k - 1]
  }

  predicate IsStep(c: Content, p: Path, k: nat)
    requires k < |p|
  {
    p[k] in c && c[p[k]].left == Above(p, k)
  }

  /** `p` lists the characters from the sentinel (excluded) down to `id`. */
  predicate IsPath(c: Content, id: CharID, p: Path) {
    && (forall k :: 0 <= k < |p| ==> IsStep(c, p, k))
    && id == Above(p, |p|)
  }

  /** The same steps, taken in a content that keeps them. */
  lemma PathCarries(c: Content, c': Content, id: CharID, p: Path)
    requires KeepsLefts(c, c') && IsPath(c, id, p)
    ensures IsPath(c', id, p)
  {
    forall k | 0 <= k < |p| ensures IsStep(c', p, k) {
      assert IsStep(c, p, k);
    }
  }

  ghost predicate HasPath(c: Content, id: CharID) {
    exists p :: IsPath(c, id, p)
  }

  /** Every left-neighbour chain ends at the sentinel. */
  ghost predicate Rooted(c: Content) {
    && SENTINEL_ID !in c
    && forall id {:trigger HasPath(c, id)} :: id in c ==> HasPath(c, id)
  }

  ghost function PathOf(c: Content, id: CharID): (p: Path)
    requires Rooted(c) && Known(c, id)
    ensures IsPath(c, id, p)
  {
    if id == SENTINEL_ID then []
    else
      assert HasPath(c, id);
      var p :| IsPath(c, id, p); p
  }

  lemma PathShortens(c: Content, id: CharID, p: Path, k: nat)
    requires IsPath(c, id, p) && k <= |p|
    ensures IsPath(c, Above(p, k), p[..k])
  {
    var q := p[..k];
    forall j | 0 <= j < k ensures IsStep(c, q, j) {
      assert IsStep(c, p, j) && Above(q, j) == Above(p, j);
    }
  }

  lemma {:induction false} PathUnique(c: Content, id: CharID, p: Path, q: Path)
    requires SENTINEL_ID !in c && IsPath(c, id, p) && IsPath(c, id, q)
    ensures p == q
    decreases |p|
  {
    var m, n := |p| - 1, |q| - 1;
    assert p != [] ==> IsStep(c, p, m);
    assert q != [] ==> IsStep(c, q, n);
    if p != [] && q != [] {
      PathShortens(c, id, p, m);
      PathShortens(c, id, q, n);
      PathUnique(c, c[id].left, p[..m], q[..n]);
      assert p == p[..m] + [id] && q == q[..n] + [id];
    }
  }

  lemma PathPrefix(c: Content, id: CharID, k: nat)
    requires Rooted(c) && Known(c, id) && k <= |PathOf(c, id)|
    ensures var p := PathOf(c, id);
            Known(c, Above(p, k)) && PathOf(c, Above(p, k)) == p[..k]
  {
    var p := PathOf(c, id);
    PathShortens(c, id, p, k);
    if k > 0 { assert IsStep(c, p, k - 1); }
    PathUnique(c, Above(p, k), PathOf(c, Above(p, k)), p[..k]);
  }

  lemma PathStep(c: Content, id: CharID)
    requires Rooted(c) && id in c
    ensures Known(c, c[id].left)
    ensures PathOf(c, id) == PathOf(c, c[id].left) + [id]
  {
    var p := PathOf(c, id);
    var n := |p| - 1;
    PathPrefix(c, id, n);
    assert IsStep(c, p, n);
    assert p == p[..n] + [id];
  }

  lemma PathInjective(c: Content, a: CharID, b: CharID)
    requires Rooted(c) && Known(c, a) && Known(c, b) && PathOf(c, a) == PathOf(c, b)
    ensures a == b
  {
  }

  /** Growth that keeps every known left neighbour. */
  predicate KeepsLefts(c: Content, c': Content) {
    forall id :: id in c ==> id in c' && c'[id].left == c[id].left
  }

  lemma PathStable(c: Content, c': Content, id: CharID)
    requires Rooted(c) && Rooted(c') && KeepsLefts(c, c') && Known(c, id)
    ensures PathOf(c', id) == PathOf(c, id)
  {
    PathCarries(c, c', id, PathOf(c, id));
    PathUnique(c', id, PathOf(c', id), PathOf(c, id));
  }

  lemma LeafPath(c: Content, id: CharID, e: Entry)
    requires Rooted(c) && !Known(c, id) && Known(c, e.left)
    ensures IsPath(c[id := e], id, PathOf(c, e.left) + [id])
  {
    var p := PathOf(c, e.left);
    var q := p + [id];
    var c' := c[id := e];
    PathCarries(c, c', e.left, p);
    forall k | 0 <= k < |q| ensures IsStep(c', q, k) {
      if k < |p| { assert IsStep(c', p, k); }
    }
  }

  lemma RootedLeaf(c: Content, id: CharID, e: Entry)
    requires Rooted(c) && !Known(c, id) && Known(c, e.left)
    ensures Rooted(c[id := e])
    ensures PathOf(c[id := e], id) == PathOf(c, e.left) + [id]
  {
    var c' := c[id := e];
    forall x | x in c' ensures HasPath(c', x) {
      if x == id {
        LeafPath(c, id, e);
      } else {
        PathCarries(c, c', x, PathOf(c, x));
      }
    }
    LeafPath(c, id, e);
    PathUnique(c', id, PathOf(c', id), PathOf(c, e.left) + [id]);
  }

  lemma RootedSameLefts(c: Content, c': Content)
    requires Rooted(c) && c.Keys == c'.Keys && KeepsLefts(c, c')
    ensures Rooted(c')
  {
    forall x | x in c' ensures HasPath(c', x) {
      PathCarries(c, c', x, PathOf(c, x));
    }
  }

  /** Document order on the characters of `c`. */
  ghost predicate Before(c: Content, a: CharID, b: CharID)
    requires Rooted(c) && Known(c, a) && Known(c, b)
  {
    Precedes(PathOf(c, a), PathOf(c, b))
  }

  /** `id` lies in the subtree of `top`. */
  ghost predicate Under(c: Content, top: CharID, id: CharID)
    requires Rooted(c) && Known(c, top) && Known(c, id)
  {
    PathOf(c, top) <= PathOf(c, id)
  }

  /** The child of `target` on the path to `id`; the sentinel when there is none. */
  ghost function RootUnder(c: Content, id: CharID, target: CharID): CharID
    requires Rooted(c) && Known(c, id) && Known(c, target)
  {
    var p, t := PathOf(c, id), PathOf(c, target);
    if t < p then p[|t|] else SENTINEL_ID
  }

  /** What `RootUnder` means in terms of the tree alone. */
  lemma RootUnderMeaning(c: Content, id: CharID, target: CharID)
    requires Rooted(c) && Known(c, id) && Known(c, target)
    ensures var r := RootUnder(c, id, target);
            if r == SENTINEL_ID then id == target || !Under(c, target, id)
            else r in c && c[r].left == target && Under(c, r, id)
    ensures forall r :: r in c && c[r].left == target && Under(c, r, id) ==> r == RootUnder(c, id, target)
  {
    var p, t := PathOf(c, id), PathOf(c, target);
    if t < p {
      PathPrefix(c, id, |t|);
      PathPrefix(c, id, |t| + 1);
      assert IsStep(c, p, |t|);
      assert p[..|t|] == t;
      PathInjective(c, Above(p, |t|), target);
    } else if t == p {
      PathInjective(c, id, target);
    }
    forall r | r in c && c[r].left == target && Under(c, r, id) ensures r == RootUnder(c, id, target) {
      PathStep(c, r);
    }
  }
}
