/** The replicated text engine: a linked list of tombstonable nodes, an index
    from identities to nodes, and a Lamport clock, all updated in place. */
module Engine {
  import opened Types
  import opened PathOrder
  import opened CanonicalOrder
  import opened PreOrder
  import opened Visible
  import opened Replicas

  datatype Result<+T> = Ok(value: T) | Err

  class Node {
    const id: CharID
    const value: Byte
    const left: CharID
    var tombstoned: bool
    var next: Node?

    constructor (row: Row, next: Node?)
      ensures id == row.id && value == row.value && left == row.left
      ensures tombstoned == row.tombstoned && this.next == next
    {
      this.id, this.value, this.left := row.id, row.value, row.left;
      this.tombstoned, this.next := row.tombstoned, next;
    }
  }

  /** The index a left-to-right pass over the list builds: the last node with
      an identity is the one found. */
  function IndexOf(nodes: seq<Node>): map<CharID, Node> {
    if nodes == [] then map[]
    else
      var n := |nodes| - 1;
      IndexOf(nodes[..n])[nodes[n].id := nodes[n]]
  }

  /** Of several nodes with one identity the last is the one indexed. */
  lemma {:induction false} IndexFindsLast(nodes: seq<Node>, k: nat)
    requires k < |nodes| && forall j :: k < j < |nodes| ==> nodes[j].id != nodes[k].id
    ensures nodes[k].id in IndexOf(nodes) && IndexOf(nodes)[nodes[k].id] == nodes[k]
    ensures forall id :: id in IndexOf(nodes) ==> exists i :: 0 <= i < |nodes| && nodes[i].id == id
  {
    var n := |nodes| - 1;
    if k < n {
      IndexFindsLast(nodes[..n], k);
    }
    IndexedAreListed(nodes);
  }

  lemma {:induction false} IndexedAreListed(nodes: seq<Node>)
    ensures forall id :: id in IndexOf(nodes) ==> exists i :: 0 <= i < |nodes| && nodes[i].id == id
  {
    if nodes != [] {
      var n := |nodes| - 1;
      IndexedAreListed(nodes[..n]);
      forall id | id in IndexOf(nodes) ensures exists i :: 0 <= i < |nodes| && nodes[i].id == id {
        assert id == nodes[n].id || id in IndexOf(nodes[..n]);
      }
    }
  }

  lemma IndexLast(nodes: seq<Node>, node: Node)
    ensures IndexOf(nodes + [node]) == IndexOf(nodes)[node.id := node]
  {
    assert (nodes + [node])[..|nodes|] == nodes;
  }

  lemma SpliceLast<T>(s: seq<T>, x: T)
    ensures Splice(s, |s|, x) == s + [x]
  {
  }

  ghost predicate Indexes(index: map<CharID, Node>, nodes: seq<Node>) {
    && (forall i :: 0 <= i < |nodes| ==> nodes[i].id in index && index[nodes[i].id] == nodes[i])
    && (forall id :: id in index ==> index[id] in nodes && index[id].id == id)
  }

  predicate IdsDifferAt(nodes: seq<Node>, i: nat, j: nat)
    requires i < |nodes| && j < |nodes|
  {
    nodes[i].id != nodes[j].id
  }

  predicate DistinctIds(nodes: seq<Node>) {
    forall i, j :: 0 <= i < j < |nodes| ==> IdsDifferAt(nodes, i, j)
  }

  lemma {:induction false} IndexOfDistinct(nodes: seq<Node>)
    requires DistinctIds(nodes)
    ensures Indexes(IndexOf(nodes), nodes)
  {
    if nodes != [] {
      var n := |nodes| - 1;
      forall i, j | 0 <= i < j < n ensures IdsDifferAt(nodes[..n], i, j) {
        assert IdsDifferAt(nodes, i, j);
      }
      IndexOfDistinct(nodes[..n]);
      forall i | 0 <= i < |nodes| ensures nodes[i].id in IndexOf(nodes) && IndexOf(nodes)[nodes[i].id] == nodes[i] {
        assert i < n ==> IdsDifferAt(nodes, i, n) && nodes[i] == nodes[..n][i];
      }
    }
  }

  lemma IndexUnique(a: map<CharID, Node>, b: map<CharID, Node>, nodes: seq<Node>)
    requires Indexes(a, nodes) && Indexes(b, nodes)
    ensures a == b
  {
    forall id ensures (id in a <==> id in b) && (id in a ==> a[id] == b[id]) {
      if id in a { var i :| 0 <= i < |nodes| && nodes[i] == a[id]; }
      if id in b { var i :| 0 <= i < |nodes| && nodes[i] == b[id]; }
    }
  }

  ghost predicate Holds(n: Node, row: Row)
    reads n`tombstoned
  {
    row == Row(n.id, n.value, n.tombstoned, n.left)
  }

  ghost predicate NextIs(nodes: seq<Node>, i: nat)
    requires i < |nodes|
    reads nodes`next
  {
    nodes[i].next == if i + 1 < |nodes| then nodes[i + 1] else null
  }

  ghost predicate Stores(nodes: seq<Node>, rows: seq<Row>)
    reads nodes`tombstoned
  {
    |nodes| == |rows| && forall i :: 0 <= i < |nodes| ==> Holds(nodes[i], rows[i])
  }

  ghost predicate Chained(nodes: seq<Node>)
    reads nodes`next
  {
    forall i :: 0 <= i < |nodes| ==> NextIs(nodes, i)
  }

  predicate DifferAt(nodes: seq<Node>, i: nat, j: nat)
    requires i < |nodes| && j < |nodes|
  {
    nodes[i] != nodes[j]
  }

  predicate Distinct(nodes: seq<Node>) {
    forall i, j :: 0 <= i < j < |nodes| ==> DifferAt(nodes, i, j)
  }

  lemma StoresSplice(nodes: seq<Node>, rows: seq<Row>, k: nat, node: Node, row: Row)
    requires k <= |nodes| && Stores(nodes, rows) && Holds(node, row)
    ensures Stores(Splice(nodes, k, node), Splice(rows, k, row))
  {
    var nodes', rows' := Splice(nodes, k, node), Splice(rows, k, row);
    forall i | 0 <= i < |nodes'| ensures Holds(nodes'[i], rows'[i]) {
      var j := if i < k then i else i - 1;
      assert i != k ==> Holds(nodes[j], rows[j]);
    }
  }

  /** A well-linked list of distinct nodes, all in `cells`, that holds `rows`. */
  ghost predicate IsList(nodes: seq<Node>, rows: seq<Row>, cells: set<Node>)
    reads cells`next, cells`tombstoned
  {
    && (forall i :: 0 <= i < |nodes| ==> nodes[i] in cells)
    && |nodes| == |rows| > 0
    && rows[0] == SENTINEL_ROW
    && Stores(nodes, rows) && Chained(nodes) && Distinct(nodes)
  }

  method Mark(n: Node, ghost nodes: seq<Node>, ghost rows: seq<Row>, ghost cells: set<Node>, ghost k: nat)
    requires IsList(nodes, rows, cells) && k < |nodes| && n == nodes[k]
    modifies n`tombstoned
    ensures IsList(nodes, rows[k := rows[k].(tombstoned := true)], cells)
  {
    n.tombstoned := true;
    ghost var rows' := rows[k := rows[k].(tombstoned := true)];
    forall i | 0 <= i < |nodes| ensures Holds(nodes[i], rows'[i]) {
      assert old(Holds(nodes[i], rows[i]));
      assert i < k ==> DifferAt(nodes, i, k);
      assert k < i ==> DifferAt(nodes, k, i);
    }
  }

  /** `std::list::insert`: a new node for `row` behind `at`. */
  method ListInsert(at: Node, row: Row, ghost nodes: seq<Node>, ghost rows: seq<Row>, ghost cells: set<Node>,
                    ghost k: nat)
    returns (node: Node)
    requires IsList(nodes, rows, cells) && 0 < k <= |nodes| && at == nodes[k - 1]
    modifies at`next
    ensures fresh(node) && node.id == row.id
    ensures IsList(Splice(nodes, k, node), Splice(rows, k, row), cells + {node})
  {
    node := new Node(row, at.next);
    Hook(at, node, nodes, k);
    StoresSplice(nodes, rows, k, node, row);
  }

  /** Points `at` to a node that already points to what followed `at`. */
  method Hook(at: Node, node: Node, ghost nodes: seq<Node>, ghost k: nat)
    requires 0 < k <= |nodes| && at == nodes[k - 1] && node !in nodes
    requires Chained(nodes) && Distinct(nodes) && node.next == at.next
    modifies at`next
    ensures Chained(Splice(nodes, k, node)) && Distinct(Splice(nodes, k, node))
  {
    assert NextIs(nodes, k - 1);
    at.next := node;
    ghost var nodes' := Splice(nodes, k, node);
    forall i | 0 <= i < |nodes'| ensures NextIs(nodes', i) {
      var j := if i < k then i else i - 1;
      assert old(NextIs(nodes, j));
      assert j < k - 1 ==> DifferAt(nodes, j, k - 1);
      assert k - 1 < j ==> DifferAt(nodes, k - 1, j);
    }
    forall i, j | 0 <= i < j < |nodes'| ensures DifferAt(nodes', i, j) {
      var i', j' := if i < k then i else i - 1, if j < k then j else j - 1;
      assert i' < j' ==> DifferAt(nodes, i', j');
    }
  }

  /** The content a sequence is canonical for, if there is one. */
  ghost function ContentOf(rows: seq<Row>): Content {
    if exists c :: Canonical(c, rows) then var c :| Canonical(c, rows); c else map[]
  }

  lemma ContentUnique(c: Content, rows: seq<Row>)
    requires Canonical(c, rows)
    ensures ContentOf(rows) == c
  {
    CanonicalIsPreOrder(c, rows);
    CanonicalIsPreOrder(ContentOf(rows), rows);
    RenderInjective(c, ContentOf(rows));
  }

  class CRDTEngine {
    const siteID: UInt32
    var clock: Int32
    var head: Node
    var index: map<CharID, Node>

    ghost var nodes: seq<Node>
    ghost var rows: seq<Row>
    ghost var content: Content
    ghost var cells: set<Node>

    /** The list is well linked and holds `rows`; the index mirrors it. Any byte
        string that decodes gives an engine in this state. */
    ghost predicate Linked()
      reads this`head, this`index, this`nodes, this`rows, this`cells, cells
    {
      && IsList(nodes, rows, cells)
      && head == nodes[0]
      && index == IndexOf(nodes)
    }

    /** The sequence is the canonical one of the integrated characters. */
    ghost predicate Ordered()
      reads this`head, this`index, this`nodes, this`rows, this`cells, this`content, cells
    {
      Linked() && Canonical(content, rows)
    }

    ghost predicate Valid()
      reads this, cells
    {
      Ordered() && ClockCovers(clock, content)
    }

    ghost function Replica(): Replica
      reads this
    {
      Replicas.Replica(clock, content)
    }

    lemma IndexMirrors()
      requires Ordered()
      ensures Indexes(index, nodes) && DistinctIds(nodes)
      ensures forall id :: id in index <==> Known(content, id)
    {
      RowsDistinctIds();
      IndexOfDistinct(nodes);
      forall id ensures id in index <==> Known(content, id) {
        KnownHasRow(content, rows, id);
        if HasRow(rows, id) {
          var i := Find(rows, id);
          assert Holds(nodes[i], rows[i]);
        }
        if id in index {
          var i :| 0 <= i < |nodes| && nodes[i] == index[id];
          assert Holds(nodes[i], rows[i]);
        }
      }
    }

    lemma RowsDistinctIds()
      requires Ordered()
      ensures DistinctIds(nodes)
    {
      forall i, j | 0 <= i < j < |nodes| ensures IdsDifferAt(nodes, i, j) {
        RowsDistinct(content, rows, i, j);
        assert Holds(nodes[i], rows[i]) && Holds(nodes[j], rows[j]);
      }
    }

    lemma IndexedAt(id: CharID) returns (k: nat)
      requires Ordered() && Known(content, id)
      ensures k < |nodes| && id in index && index[id] == nodes[k] && rows[k].id == id && k == Find(rows, id)
    {
      IndexMirrors();
      KnownHasRow(content, rows, id);
      k := Find(rows, id);
      assert Holds(nodes[k], rows[k]);
    }

    lemma IndexedLeft(id: CharID)
      requires Ordered() && Known(content, id)
      ensures id in index && index[id].left == LeftNeighbour(content, id)
    {
      var k := IndexedAt(id);
      assert Holds(nodes[k], rows[k]);
    }

    /** The specification's view of the list catches up with it. */
    ghost method Track(list: seq<Node>, held: seq<Row>, all: set<Node>)
      requires IsList(list, held, all) && head == list[0] && index == IndexOf(list)
      modifies this`nodes, this`rows, this`cells
      ensures Linked() && nodes == list && rows == held && cells == all
    {
      nodes, rows, cells := list, held, all;
    }

    ghost method Settle(c: Content)
      requires Linked() && Canonical(c, rows)
      modifies this`content
      ensures Ordered() && content == c
    {
      content := c;
    }

    constructor (siteID: UInt32)
      ensures Valid() && fresh(cells)
      ensures this.siteID == siteID && clock == 0 && rows == [SENTINEL_ROW] && content == map[]
    {
      var sentinel := new Node(SENTINEL_ROW, null);
      this.siteID := siteID;
      clock := 0;
      head := sentinel;
      index := map[SENTINEL_ID := sentinel];
      nodes, rows, content := [sentinel], [SENTINEL_ROW], map[];
      cells := {sentinel};
      new;
      EmptyCanonical();
      assert IndexOf([]) == map[];
    }

    method CanApply(op: Operation) returns (b: bool)
      requires Ordered()
      ensures b == Replicas.CanApply(content, op)
      ensures b <==> op.kind == DELETE || op.left == SENTINEL_ID || op.left in content
    {
      IndexMirrors();
      if op.kind == DELETE {
        return true;
      }
      return op.left in index;
    }

    /** The child of `target` above `id`, or the sentinel if `id` is not below it. */
    method RootAncestor(id: CharID, target: CharID) returns (root: CharID)
      requires Ordered() && Known(content, target)
      ensures root == if Known(content, id) then RootUnder(content, id, target) else SENTINEL_ID
    {
      IndexMirrors();
      var cur := id;
      while true
        invariant !Known(content, id) ==> cur == id
        invariant Known(content, id) ==>
                    Known(content, cur) && RootUnder(content, cur, target) == RootUnder(content, id, target)
        decreases if Known(content, cur) then |PathOf(content, cur)| else 0
      {
        if cur !in index {
          return SENTINEL_ID;
        }
        IndexedLeft(cur);
        RootUnderStep(content, cur, target);
        var parent := index[cur].left;
        if parent == target {
          return cur;
        }
        if parent == SENTINEL_ID {
          return SENTINEL_ID;
        }
        cur := parent;
      }
    }

    /** `at` is the node before position `k`, and a new character spliced in there
        makes the canonical sequence. */
    ghost predicate GoesBehind(at: Node, k: nat, newID: CharID, e: Entry)
      reads this`nodes, this`rows, this`content
    {
      && 0 < k <= |nodes| && k <= |rows| && at == nodes[k - 1]
      && Canonical(content[newID := e], Splice(rows, k, RowOf(newID, e)))
    }

    lemma NextNode(k: nat)
      requires Ordered() && 0 < k <= |nodes|
      ensures nodes[k - 1].next == if k < |nodes| then nodes[k] else null
      ensures k < |nodes| ==> nodes[k].id == rows[k].id && Known(content, rows[k].id)
    {
      assert NextIs(nodes, k - 1);
      assert k < |nodes| ==> Holds(nodes[k], rows[k]);
    }

    /** The guard of the skip loop. */
    method MustSkip(id: CharID, leftID: CharID, newID: CharID) returns (b: bool)
      requires Ordered() && Known(content, id) && Known(content, leftID)
      ensures b == Skips(content, id, leftID, newID)
    {
      var root := RootAncestor(id, leftID);
      b := root != SENTINEL_ID && root.Greater(newID);
    }

    /** The skip loop of `insertNode`: past the left neighbour and every node that
        is below a larger sibling of the new character. It stops at the new
        character's place in the global order. */
    method FindPlace(newID: CharID, leftID: CharID, ghost e: Entry) returns (at: Node, ghost k: nat)
      requires Ordered() && !Known(content, newID) && Known(content, leftID) && e.left == leftID
      ensures GoesBehind(at, k, newID, e)
    {
      ghost var l := IndexedAt(leftID);
      k := l + 1;
      at := index[leftID];
      while at.next != null
        invariant l < k <= |nodes| && at == nodes[k - 1]
        invariant forall i :: l < i < k ==> Skips(content, rows[i].id, leftID, newID)
        decreases |nodes| - k
      {
        NextNode(k);
        var skips := MustSkip(at.next.id, leftID, newID);
        if !skips {
          break;
        }
        at := at.next;
        k := k + 1;
      }
      NextNode(k);
      InsertKeepsCanonical(content, rows, newID, e, l, k);
    }

    method InsertNode(newID: CharID, value: Byte, leftID: CharID)
      requires Ordered() && !Known(content, newID) && Known(content, leftID)
      modifies this, cells
      ensures Ordered() && fresh(cells - old(cells)) && clock == old(clock)
      ensures content == old(content)[newID := Entry(leftID, value, false)]
    {
      var e := Entry(leftID, value, false);
      var at; ghost var k;
      at, k := FindPlace(newID, leftID, e);
      IndexMirrors();
      LinkIn(at, RowOf(newID, e), k);
      Settle(content[newID := e]);
    }

    /** `std::list::insert` in front of the node after `at`, and the index entry. */
    method LinkIn(at: Node, row: Row, ghost k: nat)
      requires Linked() && 0 < k <= |nodes| && at == nodes[k - 1]
      requires Indexes(index, nodes) && DistinctIds(nodes) && row.id !in index
      modifies this`index, this`nodes, this`rows, this`cells, at`next
      ensures Linked() && fresh(cells - old(cells))
      ensures rows == Splice(old(rows), k, row)
    {
      var node := ListInsert(at, row, nodes, rows, cells, k);
      IndexSplice(index, nodes, k, node);
      index := index[row.id := node];
      Track(Splice(nodes, k, node), Splice(rows, k, row), cells + {node});
    }

    method ApplyRemote(op: Operation)
      requires Valid() && Appliable(content, op) && op.id.clock < INT32_MAX
      modifies this, cells
      ensures Valid() && fresh(cells - old(cells))
      ensures Replica() == Apply(old(Replica()), op)
      ensures clock == if op.id.clock >= old(clock) then op.id.clock + 1 else old(clock)
    {
      TickCovers(clock, content, op);
      if op.id.clock >= clock {
        clock := op.id.clock + 1;
      }
      Incorporate(op);
    }

    /** The part of `applyRemote` that concerns the list. */
    method Incorporate(op: Operation)
      requires Ordered() && Appliable(content, op)
      modifies this, cells
      ensures Ordered() && fresh(cells - old(cells)) && clock == old(clock)
      ensures content == Integrate(old(content), op)
    {
      IndexMirrors();
      if op.kind == INSERT {
        if op.id in index {
          return;
        }
        InsertNode(op.id, op.value, op.left);
      } else {
        if op.id in index {
          ghost var k := IndexedAt(op.id);
          Tombstone(index[op.id], k);
        }
      }
    }

    /** Marks a node; the sentinel is marked from the start. */
    method Tombstone(n: Node, ghost k: nat)
      requires Ordered() && k < |nodes| && n == nodes[k]
      modifies this, n`tombstoned
      ensures Ordered() && cells == old(cells) && clock == old(clock)
      ensures content == Integrate(old(content), DeleteOp(n.id))
      ensures rows == old(rows)[k := old(rows)[k].(tombstoned := true)]
    {
      ghost var rows' := rows[k := rows[k].(tombstoned := true)];
      assert Holds(n, rows[k]);
      if k > 0 {
        TombstoneKeepsCanonical(content, rows, k);
      } else {
        assert rows' == rows;
      }
      Mark(n, nodes, rows, cells, k);
      rows, content := rows', Integrate(content, DeleteOp(n.id));
    }

    lemma IsRendered()
      requires Ordered()
      ensures rows == Render(content)
    {
      CanonicalIsPreOrder(content, rows);
    }

    // --- queries: each walks the list once ------------------------------------

    method VisibleAt(n: int) returns (id: CharID)
      requires Linked()
      ensures id == VisibleId(rows, n)
      ensures id == if 0 <= n < |Alive(rows)| then Alive(rows)[n].id else SENTINEL_ID
    {
      if n < 0 {
        return SENTINEL_ID;
      }
      var cnt := 0;
      var cur: Node? := head;
      ghost var i := 0;
      while cur != null
        invariant i <= |nodes| && cur == (if i < |nodes| then nodes[i] else null)
        invariant cnt == Rank(rows, i) <= n
        decreases |nodes| - i
      {
        assert NextIs(nodes, i) && Holds(nodes[i], rows[i]);
        RankStep(rows, i);
        if !cur.tombstoned {
          if cnt == n {
            AliveKill(rows, i);
            return cur.id;
          }
          cnt := cnt + 1;
        }
        cur := cur.next;
        i := i + 1;
      }
      assert rows[..i] == rows;
      return SENTINEL_ID;
    }

    /** The node shown at visible position `n`; null stands for `end()`. */
    method VisibleIter(n: int) returns (it: Node?, ghost k: nat)
      requires Linked()
      ensures it != null <==> 0 <= n < |Alive(rows)|
      ensures it != null ==> k < |nodes| && it == nodes[k] && !rows[k].tombstoned && Rank(rows, k) == n
    {
      var cnt := 0;
      it, k := head, 0;
      while it != null
        invariant k <= |nodes| && it == (if k < |nodes| then nodes[k] else null)
        invariant cnt == Rank(rows, k) && (0 <= n ==> cnt <= n)
        decreases |nodes| - k
      {
        assert NextIs(nodes, k) && Holds(nodes[k], rows[k]);
        RankStep(rows, k);
        if !it.tombstoned {
          if cnt == n {
            AliveKill(rows, k);
            return;
          }
          cnt := cnt + 1;
        }
        it := it.next;
        k := k + 1;
      }
      assert rows[..k] == rows;
    }

    method VisibleOffsetOf(id: CharID) returns (offset: int)
      requires Linked()
      ensures offset == Offset(rows, id)
      ensures id == SENTINEL_ID || !HasRow(rows, id) ==> offset == -1
      ensures id != SENTINEL_ID && HasRow(rows, id) ==>
                exists k :: 0 <= k < |rows| && FirstWith(rows, id, k) && offset == Rank(rows, k)
    {
      if id == SENTINEL_ID {
        return -1;
      }
      var cnt := 0;
      var cur: Node? := head;
      ghost var i := 0;
      while cur != null
        invariant i <= |nodes| && cur == (if i < |nodes| then nodes[i] else null)
        invariant cnt == Rank(rows, i)
        invariant forall j :: 0 <= j < i ==> rows[j].id != id
        decreases |nodes| - i
      {
        assert NextIs(nodes, i) && Holds(nodes[i], rows[i]);
        RankStep(rows, i);
        if cur.id == id {
          assert HasRow(rows, id) && Find(rows, id) == i && FirstWith(rows, id, i);
          return cnt;
        }
        if !cur.tombstoned {
          cnt := cnt + 1;
        }
        cur := cur.next;
        i := i + 1;
      }
      return -1;
    }

    method GetDocument() returns (out: seq<Byte>)
      requires Linked()
      ensures out == Text(rows)
    {
      out := [];
      var cur: Node? := head;
      ghost var i := 0;
      while cur != null
        invariant i <= |nodes| && cur == (if i < |nodes| then nodes[i] else null)
        invariant out == Text(rows[..i])
        decreases |nodes| - i
      {
        assert NextIs(nodes, i) && Holds(nodes[i], rows[i]);
        assert rows[..i + 1][..i] == rows[..i];
        if !cur.tombstoned {
          out := out + [cur.value];
        }
        cur := cur.next;
        i := i + 1;
      }
      assert rows[..i] == rows;
    }

    // --- local edits ------------------------------------------------------------

    /** What `LocalInsertShows` says, of the sequence this engine will hold. */
    lemma InsertionShows(pos: int, c: Byte)
      requires Valid() && clock < INT32_MAX
      ensures var op, text := LocalInsertOp(clock, siteID, rows, pos, c), Text(rows);
              && !Known(content, op.id) && Replicas.CanApply(content, op)
              && (if 0 < pos <= |text|
                  then op.left in content && !content[op.left].dead && Offset(rows, op.left) == pos - 1
                  else op.left == SENTINEL_ID)
              && ClockCovers(clock + 1, Integrate(content, op))
              && forall rows' :: Canonical(Integrate(content, op), rows') ==>
                   Text(rows') == if 0 <= pos <= |text| then text[..pos] + [c] + text[pos..] else [c] + text
    {
      IsRendered();
      LocalInsertShows(Replica(), siteID, pos, c);
      var c' := Integrate(content, LocalInsertOp(clock, siteID, rows, pos, c));
      forall rows' | Canonical(c', rows') ensures rows' == Render(c') {
        CanonicalIsPreOrder(c', rows');
      }
    }

    method LocalInsert(pos: int, c: Byte) returns (op: Operation)
      requires Valid() && clock < INT32_MAX
      modifies this, cells
      ensures Valid() && fresh(cells - old(cells))
      ensures op == Operation(INSERT, CharID(old(clock) + 1, siteID), op.left, c)
      ensures op == LocalInsertOp(old(clock), siteID, old(rows), pos, c)
      ensures if 0 < pos <= |Text(old(rows))|
              then op.left in old(content) && !old(content)[op.left].dead && Offset(old(rows), op.left) == pos - 1
              else op.left == SENTINEL_ID
      ensures !Known(old(content), op.id) && Replicas.CanApply(old(content), op)
      ensures Replica() == Replicas.Replica(old(clock) + 1, Integrate(old(content), op))
      ensures var text := Text(old(rows));
              Text(rows) == if 0 <= pos <= |text| then text[..pos] + [c] + text[pos..] else [c] + text
    {
      InsertionShows(pos, c);
      var leftID := VisibleAt(pos - 1);
      TickClock();
      var newID := CharID(clock, siteID);
      InsertNode(newID, c, leftID);
      return Operation(INSERT, newID, leftID, c);
    }

    lemma DeletionShows(k: nat)
      requires Ordered() && k < |nodes| && !rows[k].tombstoned
      ensures var id, pos := nodes[k].id, Rank(rows, k);
              && id in content && !content[id].dead && pos < |Text(rows)|
              && VisibleId(rows, pos) == id && Offset(rows, id) == pos
              && Text(rows[k := rows[k].(tombstoned := true)]) == Text(rows)[..pos] + Text(rows)[pos + 1..]
    {
      assert Holds(nodes[k], rows[k]);
      AliveKill(rows, k);
      TextKill(rows, k);
      KnownHasRow(content, rows, rows[k].id);
      FindIs(content, rows, k);
    }

    method TickClock()
      requires Valid() && clock < INT32_MAX
      modifies this`clock
      ensures Valid() && clock == old(clock) + 1
    {
      clock := clock + 1;
    }

    /** Past the end of the document the clock has ticked before the error is raised. */
    method LocalDelete(pos: int) returns (r: Result<Operation>)
      requires Valid() && clock < INT32_MAX
      modifies this, cells
      ensures Valid() && cells == old(cells) && clock == old(clock) + 1
      ensures r.Ok? <==> 0 <= pos < |Text(old(rows))|
      ensures r.Err? ==> content == old(content) && rows == old(rows)
      ensures r.Ok? ==>
                && r.value == Operation(DELETE, VisibleId(old(rows), pos), SENTINEL_ID, 0)
                && r.value.id in old(content) && !old(content)[r.value.id].dead
                && Offset(old(rows), r.value.id) == pos
                && content == Integrate(old(content), r.value)
                && Text(rows) == Text(old(rows))[..pos] + Text(old(rows))[pos + 1..]
    {
      TickClock();
      var it; ghost var k;
      it, k := VisibleIter(pos);
      if it == null {
        return Err;
      }
      HideVisible(it, k);
      return Ok(DeleteOp(it.id));
    }

    method HideVisible(n: Node, ghost k: nat)
      requires Valid() && k < |nodes| && n == nodes[k] && !rows[k].tombstoned
      modifies this, n`tombstoned
      ensures Valid() && cells == old(cells) && clock == old(clock)
      ensures n.id in old(content) && !old(content)[n.id].dead && content == Integrate(old(content), DeleteOp(n.id))
      ensures Rank(old(rows), k) < |Text(old(rows))| && VisibleId(old(rows), Rank(old(rows), k)) == n.id
      ensures Offset(old(rows), n.id) == Rank(old(rows), k)
      ensures var text, pos := Text(old(rows)), Rank(old(rows), k); Text(rows) == text[..pos] + text[pos + 1..]
    {
      DeletionShows(k);
      Tombstone(n, k);
    }

    // --- snapshots --------------------------------------------------------------

    /** Moves another engine's sequence in and rebuilds the index; the site stays. */
    method LoadState(other: CRDTEngine)
      requires other.Linked() && other != this
      modifies this
      ensures Linked() && clock == other.clock && rows == other.rows
      ensures cells == other.cells && content == other.content
    {
      clock, head := other.clock, other.head;
      Reindex(other.nodes);
      Track(other.nodes, other.rows, other.cells);
      content := other.content;
    }

    /** `push_back` of a decoded row, behind the last node, and its index entry. */
    method Append(tail: Node, row: Row) returns (node: Node)
      requires Linked() && tail == nodes[|nodes| - 1]
      modifies this`index, this`nodes, this`rows, this`cells, tail`next
      ensures Linked() && fresh(node) && cells == old(cells) + {node}
      ensures nodes == old(nodes) + [node] && rows == old(rows) + [row]
    {
      node := ListInsert(tail, row, nodes, rows, cells, |nodes|);
      SpliceLast(nodes, node);
      SpliceLast(rows, row);
      IndexLast(nodes, node);
      index := index[row.id := node];
      Track(nodes + [node], rows + [row], cells + {node});
    }

    /** Takes a decoded sequence for the canonical one it may be. */
    ghost method Recognise()
      requires Linked()
      modifies this`content
      ensures Linked() && content == ContentOf(rows)
    {
      content := ContentOf(rows);
    }

    method Reindex(ghost list: seq<Node>)
      requires list != [] && Chained(list) && head == list[0]
      modifies this`index
      ensures index == IndexOf(list)
    {
      index := map[];
      var cur: Node? := head;
      ghost var i := 0;
      while cur != null
        invariant i <= |list| && cur == (if i < |list| then list[i] else null)
        invariant index == IndexOf(list[..i])
        decreases |list| - i
      {
        assert NextIs(list, i);
        assert list[..i + 1][..i] == list[..i];
        index := index[cur.id := cur];
        cur := cur.next;
        i := i + 1;
      }
      assert list[..i] == list;
    }
  }

  function LeftNeighbour(c: Content, id: CharID): CharID
    requires Known(c, id)
  {
    if id in c then c[id].left else SENTINEL_ID
  }

  lemma RootUnderStep(c: Content, id: CharID, target: CharID)
    requires Rooted(c) && Known(c, id) && Known(c, target)
    ensures var left := LeftNeighbour(c, id);
            && Known(c, left)
            && (left != SENTINEL_ID ==> |PathOf(c, left)| < |PathOf(c, id)|)
            && RootUnder(c, id, target) ==
               if left == target then id
               else if left == SENTINEL_ID then SENTINEL_ID
               else RootUnder(c, left, target)
  {
    if id in c {
      PathStep(c, id);
      var p, t := PathOf(c, c[id].left), PathOf(c, target);
      if t == p { PathInjective(c, c[id].left, target); }
      assert t < p + [id] <==> t <= p;
      assert t < p ==> (p + [id])[|t|] == p[|t|];
    }
  }

  lemma IndexSplice(index: map<CharID, Node>, nodes: seq<Node>, k: nat, node: Node)
    requires Indexes(index, nodes) && k <= |nodes| && node.id !in index
    requires DistinctIds(nodes)
    ensures index[node.id := node] == IndexOf(Splice(nodes, k, node))
  {
    var nodes', index' := Splice(nodes, k, node), index[node.id := node];
    forall i, j | 0 <= i < j < |nodes'| ensures IdsDifferAt(nodes', i, j) {
      var i', j' := if i < k then i else i - 1, if j < k then j else j - 1;
      assert i != k && j != k ==> IdsDifferAt(nodes, i', j');
    }
    IndexOfDistinct(nodes');
    forall id | id in index' ensures index'[id] in nodes' && index'[id].id == id {
      if id == node.id {
        assert nodes'[k] == node;
      } else {
        var i :| 0 <= i < |nodes| && nodes[i] == index[id];
        assert nodes'[if i < k then i else i + 1] == index[id];
      }
    }
    IndexUnique(IndexOf(nodes'), index', nodes');
  }
}
