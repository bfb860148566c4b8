/** The document text and the visible positions of a row sequence. */
module Visible {
  import opened Types
  import opened CanonicalOrder

  /** The rows a reader sees, in order. */
  function Alive(rows: seq<Row>): (s: seq<Row>)
    ensures |s| <= |rows|
  {
    if rows == [] then []
    else
      var n := |rows| - 1;
      Alive(rows[..n]) + Shown(rows[n])
  }

  function Shown(row: Row): (s: seq<Row>)
    ensures |s| <= 1
  {
    if row.tombstoned then [] else [row]
  }

  function Values(s: seq<Row>): (t: seq<Byte>)
    ensures |t| == |s|
    ensures forall i :: 0 <= i < |t| ==> t[i] == s[i].value
  {
    seq(|s|, i requires 0 <= i < |s| => s[i].value)
  }

  function Text(rows: seq<Row>): (s: seq<Byte>)
    ensures |s| == |Alive(rows)|
  {
    Values(Alive(rows))
  }

  /** How many visible characters stand before row `k`. */
  function Rank(rows: seq<Row>, k: nat): (n: nat)
    requires k <= |rows|
  {
    |Alive(rows[..k])|
  }

  /** The visible offset of `id`; -1 for the sentinel and for an absent identity. */
  function Offset(rows: seq<Row>, id: CharID): int {
    if id == SENTINEL_ID || !HasRow(rows, id) then -1 else Rank(rows, Find(rows, id))
  }

  /** The identity at visible position `n`; the sentinel when there is none. */
  function VisibleId(rows: seq<Row>, n: int): CharID {
    if 0 <= n < |Alive(rows)| then Alive(rows)[n].id else SENTINEL_ID
  }

  function Remove<T>(s: seq<T>, k: nat): (r: seq<T>)
    requires k < |s|
    ensures |r| == |s| - 1
    ensures forall i {:trigger r[i]} :: 0 <= i < |r| ==> r[i] == if i < k then s[i] else s[i + 1]
  {
    s[..k] + s[k + 1..]
  }

  lemma {:induction false} AliveConcat(a: seq<Row>, b: seq<Row>)
    ensures Alive(a + b) == Alive(a) + Alive(b)
  {
    if b == [] {
      assert a + b == a;
    } else {
      var n := |b| - 1;
      assert (a + b)[..|a + b| - 1] == a + b[..n];
      AliveConcat(a, b[..n]);
    }
  }

  lemma AliveSplit(a: seq<Row>, row: Row, b: seq<Row>)
    ensures Alive(a + [row] + b) == Alive(a) + Shown(row) + Alive(b)
  {
    AliveConcat(a + [row], b);
    assert (a + [row])[..|a|] == a;
  }

  lemma SpliceMiddle<T>(a: seq<T>, b: seq<T>, x: T)
    ensures Splice(a + b, |a|, x) == a + [x] + b
  {
  }

  lemma RemoveMiddle<T>(a: seq<T>, b: seq<T>, x: T)
    ensures Remove(a + [x] + b, |a|) == a + b
  {
  }

  lemma AliveSplice(rows: seq<Row>, k: nat, row: Row)
    requires k <= |rows| && !row.tombstoned
    ensures Rank(rows, k) <= |Alive(rows)|
    ensures Alive(Splice(rows, k, row)) == Splice(Alive(rows), Rank(rows, k), row)
  {
    var a, b := rows[..k], rows[k..];
    assert rows == a + b && Splice(rows, k, row) == a + [row] + b;
    AliveConcat(a, b);
    AliveSplit(a, row, b);
    SpliceMiddle(Alive(a), Alive(b), row);
  }

  lemma KillMiddle(a: seq<Row>, row: Row, b: seq<Row>)
    requires !row.tombstoned
    ensures |Alive(a)| < |Alive(a + [row] + b)| && Alive(a + [row] + b)[|Alive(a)|] == row
    ensures Alive(a + [row.(tombstoned := true)] + b) == Remove(Alive(a + [row] + b), |Alive(a)|)
  {
    var dead := row.(tombstoned := true);
    AliveSplit(a, row, b);
    AliveSplit(a, dead, b);
    assert Alive(a) + Shown(dead) == Alive(a);
    RemoveMiddle(Alive(a), Alive(b), row);
  }

  lemma UpdateMiddle<T>(s: seq<T>, k: nat, x: T)
    requires k < |s|
    ensures s == s[..k] + [s[k]] + s[k + 1..] && s[k := x] == s[..k] + [x] + s[k + 1..]
  {
  }

  lemma AliveKill(rows: seq<Row>, k: nat)
    requires k < |rows| && !rows[k].tombstoned
    ensures Rank(rows, k) < |Alive(rows)| && Alive(rows)[Rank(rows, k)] == rows[k]
    ensures Alive(rows[k := rows[k].(tombstoned := true)]) == Remove(Alive(rows), Rank(rows, k))
  {
    KillMiddle(rows[..k], rows[k], rows[k + 1..]);
    UpdateMiddle(rows, k, rows[k].(tombstoned := true));
  }

  lemma TextSplice(rows: seq<Row>, k: nat, row: Row)
    requires k <= |rows| && !row.tombstoned
    ensures Rank(rows, k) <= |Text(rows)|
    ensures Text(Splice(rows, k, row)) == Splice(Text(rows), Rank(rows, k), row.value)
  {
    AliveSplice(rows, k, row);
    var a, n := Alive(rows), Rank(rows, k);
    assert Values(Splice(a, n, row)) == Splice(Values(a), n, row.value);
  }

  lemma TextKill(rows: seq<Row>, k: nat)
    requires k < |rows| && !rows[k].tombstoned
    ensures Rank(rows, k) < |Text(rows)|
    ensures Text(rows[k := rows[k].(tombstoned := true)]) == Remove(Text(rows), Rank(rows, k))
  {
    AliveKill(rows, k);
    var a, n := Alive(rows), Rank(rows, k);
    assert Values(Remove(a, n)) == Remove(Values(a), n);
  }

  lemma RankBound(rows: seq<Row>, k: nat)
    requires k <= |rows|
    ensures Rank(rows, k) <= |Alive(rows)|
  {
    AliveConcat(rows[..k], rows[k..]);
    assert rows == rows[..k] + rows[k..];
  }

  lemma RankStep(rows: seq<Row>, k: nat)
    requires k < |rows|
    ensures Rank(rows, k + 1) == Rank(rows, k) + |Shown(rows[k])|
  {
    assert rows[..k + 1][..k] == rows[..k];
  }

  function ShownBefore(rows: seq<Row>, k: nat): set<int>
    requires k <= |rows|
  {
    set i | 0 <= i < k && !rows[i].tombstoned
  }

  lemma ShownStep(rows: seq<Row>, k: nat)
    requires 0 < k <= |rows|
    ensures |ShownBefore(rows, k)| == |ShownBefore(rows, k - 1)| + if rows[k - 1].tombstoned then 0 else 1
  {
    var before := ShownBefore(rows, k - 1);
    if rows[k - 1].tombstoned {
      assert ShownBefore(rows, k) == before;
    } else {
      assert ShownBefore(rows, k) == before + {k - 1};
    }
  }

  lemma NoneShown(rows: seq<Row>)
    ensures |ShownBefore(rows, 0)| == 0 && Rank(rows, 0) == 0
  {
    assert ShownBefore(rows, 0) == {};
  }

  /** The rank is the number of rows before that are not tombstoned. */
  lemma {:induction false} RankCounts(rows: seq<Row>, k: nat)
    requires k <= |rows|
    ensures Rank(rows, k) == |ShownBefore(rows, k)|
  {
    if k == 0 {
      NoneShown(rows);
    } else {
      RankCounts(rows, k - 1);
      RankStep(rows, k - 1);
      ShownStep(rows, k);
    }
  }

  /** A visible row comes before every later one. */
  lemma RankIncreases(rows: seq<Row>, k: nat, l: nat)
    requires k < l <= |rows| && !rows[k].tombstoned
    ensures Rank(rows, k) < Rank(rows, l)
  {
    RankStep(rows, k);
    assert rows[..l] == rows[..k + 1] + rows[k + 1..l];
    AliveConcat(rows[..k + 1], rows[k + 1..l]);
  }

  /** The row shown at visible position `n`. */
  lemma {:induction false} AliveAt(rows: seq<Row>, n: nat) returns (k: nat)
    requires n < |Alive(rows)|
    ensures k < |rows| && !rows[k].tombstoned && rows[k] == Alive(rows)[n] && Rank(rows, k) == n
  {
    var m := |rows| - 1;
    if n < |Alive(rows[..m])| {
      k := AliveAt(rows[..m], n);
      assert rows[..m][..k] == rows[..k];
    } else {
      k := m;
    }
  }

  lemma FindIs(c: Content, rows: seq<Row>, k: nat)
    requires Canonical(c, rows) && k < |rows|
    ensures HasRow(rows, rows[k].id) && Find(rows, rows[k].id) == k
  {
    assert HasRow(rows, rows[k].id);
    RowsDistinct(c, rows, Find(rows, rows[k].id), k);
  }

  /** `visibleAt` and `visibleOffsetOf` invert each other on visible characters. */
  lemma PositionsInvert(c: Content, rows: seq<Row>, n: nat, id: CharID)
    requires Canonical(c, rows)
    ensures n < |Alive(rows)| ==> VisibleId(rows, n) in c && Offset(rows, VisibleId(rows, n)) == n
    ensures id in c && !c[id].dead ==>
              0 <= Offset(rows, id) < |Alive(rows)| && VisibleId(rows, Offset(rows, id)) == id
  {
    if n < |Alive(rows)| {
      var k := AliveAt(rows, n);
      FindIs(c, rows, k);
    }
    if id in c && !c[id].dead {
      assert HasRow(rows, id);
      AliveKill(rows, Find(rows, id));
    }
  }

  /** What is visible is integrated and alive. */
  lemma VisibleIsAlive(c: Content, rows: seq<Row>, n: nat)
    requires Canonical(c, rows) && n < |Alive(rows)|
    ensures var id := VisibleId(rows, n); id in c && !c[id].dead && Offset(rows, id) == n
  {
    var k := AliveAt(rows, n);
    FindIs(c, rows, k);
    assert rows[k] == RowOf(rows[k].id, c[rows[k].id]);
  }
}
