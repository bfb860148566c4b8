/** The encoders and decoders themselves: loops that push bytes onto buffers,
    advance a read offset, and rebuild an engine node by node. */
module Serializer {
  import opened Types
  import opened Engine
  import Codec

  method WriteUint32(buf: seq<Byte>, v: UInt32) returns (out: seq<Byte>)
    ensures out == buf + Codec.U32(v)
    ensures Codec.Read32(out, |buf|) == v
  {
    out := buf;
    out := out + [v / 0x100_0000 % 0x100];
    out := out + [v / 0x1_0000 % 0x100];
    out := out + [v / 0x100 % 0x100];
    out := out + [v % 0x100];
    assert out == buf + Codec.U32(v);
    Codec.Appended(buf, v);
  }

  method WriteInt32(buf: seq<Byte>, v: Int32) returns (out: seq<Byte>)
    ensures out == buf + Codec.I32(v)
  {
    out := WriteUint32(buf, if v < 0 then v + 0x1_0000_0000 else v);
  }

  method ReadUint32(data: seq<Byte>, offset: nat) returns (v: UInt32, next: nat)
    requires offset + 4 <= |data|
    ensures v == Codec.Read32(data, offset) && next == offset + 4
  {
    var b3: int, b2: int, b1: int, b0: int :=
      data[offset], data[offset + 1], data[offset + 2], data[offset + 3];
    v := b3 * 0x100_0000 + b2 * 0x1_0000 + b1 * 0x100 + b0;
    next := offset + 4;
  }

  method ReadInt32(data: seq<Byte>, offset: nat) returns (v: Int32, next: nat)
    requires offset + 4 <= |data|
    ensures v == Codec.Signed(Codec.Read32(data, offset)) && next == offset + 4
  {
    var u;
    u, next := ReadUint32(data, offset);
    v := if u <= INT32_MAX then u else u - 0x1_0000_0000;
  }

  method WriteId(buf: seq<Byte>, id: CharID) returns (out: seq<Byte>)
    ensures out == buf + Codec.IdBytes(id)
  {
    out := WriteInt32(buf, id.clock);
    out := WriteUint32(out, id.siteID);
  }

  method ReadId(data: seq<Byte>, offset: nat) returns (id: CharID, next: nat)
    requires offset + 8 <= |data|
    ensures id == Codec.IdAt(data, offset) && next == offset + 8
  {
    var clock, site;
    clock, next := ReadInt32(data, offset);
    site, next := ReadUint32(data, next);
    id := CharID(clock, site);
  }

  method BuildFrame(kind: Byte, payload: seq<Byte>) returns (frame: seq<Byte>)
    ensures frame == Codec.Frame(kind, payload)
  {
    frame := [kind];
    frame := WriteUint32(frame, |payload| % 0x1_0000_0000);
    frame := frame + payload;
  }

  method Encode(op: Operation) returns (bytes: seq<Byte>)
    ensures bytes == Codec.EncodeOp(op)
    ensures |bytes| == 23 && bytes[0] == 1 && bytes[5] == (if op.kind == INSERT then 0 else 1)
    ensures Codec.Read32(bytes, 6) == (if op.id.clock < 0 then op.id.clock + 0x1_0000_0000 else op.id.clock)
    ensures Codec.Read32(bytes, 10) == op.id.siteID && Codec.Read32(bytes, 18) == op.left.siteID
    ensures Codec.Read32(bytes, 14) == (if op.left.clock < 0 then op.left.clock + 0x1_0000_0000 else op.left.clock)
    ensures bytes[22] == op.value
  {
    Codec.OpLayout(op);
    var payload: seq<Byte> := [if op.kind == INSERT then 0 else 1];
    payload := WriteId(payload, op.id);
    payload := WriteId(payload, op.left);
    payload := payload + [op.value];
    bytes := BuildFrame(Codec.OPERATION, payload);
  }

  /** Reads nothing outside the buffer, whatever the buffer holds. */
  method Decode(bytes: seq<Byte>) returns (r: Result<Operation>)
    ensures r == Codec.ParseOp(bytes)
    ensures r.Ok? <==> 5 <= |bytes| && bytes[0] == 1 && 18 <= Codec.Read32(bytes, 1) <= |bytes| - 5
    ensures r.Ok? ==> (r.value.kind == INSERT <==> bytes[5] == 0) && r.value.value == bytes[22]
    ensures r.Ok? ==> r.value.id.siteID == Codec.Read32(bytes, 10) && r.value.left.siteID == Codec.Read32(bytes, 18)
    ensures r.Ok? ==>
              && r.value.id.clock == (if Codec.Read32(bytes, 6) < 0x8000_0000 then Codec.Read32(bytes, 6)
                                      else Codec.Read32(bytes, 6) - 0x1_0000_0000)
              && r.value.left.clock == (if Codec.Read32(bytes, 14) < 0x8000_0000 then Codec.Read32(bytes, 14)
                                        else Codec.Read32(bytes, 14) - 0x1_0000_0000)
  {
    Codec.OpReading(bytes);
    if |bytes| < 5 {
      return Err;
    }
    if bytes[0] != Codec.OPERATION {
      return Err;
    }
    var payloadLen, offset := ReadUint32(bytes, 1);
    if |bytes| - offset < payloadLen {
      return Err;
    }
    if payloadLen < 18 {
      return Err;
    }
    var kind := if bytes[offset] == 0 then INSERT else DELETE;
    var id, left;
    id, offset := ReadId(bytes, offset + 1);
    left, offset := ReadId(bytes, offset);
    return Ok(Operation(kind, id, left, bytes[offset]));
  }

  // --- engine snapshots --------------------------------------------------------

  ghost function SnapshotOf(e: CRDTEngine): Codec.Snapshot
    reads e
  {
    Codec.Snapshot(e.siteID, e.clock, e.rows)
  }

  method WriteRow(buf: seq<Byte>, n: Node) returns (out: seq<Byte>)
    ensures out == buf + Codec.RowBytes(Row(n.id, n.value, n.tombstoned, n.left))
  {
    out := WriteId(buf, n.id);
    out := WriteId(out, n.left);
    out := out + [n.value];
    out := out + [if n.tombstoned then 1 else 0];
  }

  method CountNodes(e: CRDTEngine) returns (count: UInt32)
    requires e.Linked()
    ensures count == |Codec.Stored(e.rows)| % 0x1_0000_0000
  {
    count := 0;
    var cur: Node? := e.head;
    ghost var i := 0;
    while cur != null
      invariant i <= |e.nodes| && cur == (if i < |e.nodes| then e.nodes[i] else null)
      invariant count == |Codec.Stored(e.rows[..i])| % 0x1_0000_0000
      decreases |e.nodes| - i
    {
      assert NextIs(e.nodes, i) && Holds(e.nodes[i], e.rows[i]);
      Codec.CountStep(e.rows, i);
      if cur.id != SENTINEL_ID {
        count := (count + 1) % 0x1_0000_0000;
      }
      cur := cur.next;
      i := i + 1;
    }
    assert e.rows[..i] == e.rows;
  }

  lemma Associative<T>(a: seq<T>, b: seq<T>, c: seq<T>)
    ensures a + b + c == a + (b + c)
  {
  }

  method WriteNodes(buf: seq<Byte>, e: CRDTEngine) returns (out: seq<Byte>)
    requires e.Linked()
    ensures out == buf + Codec.StoredBytes(e.rows)
  {
    out := buf;
    var cur: Node? := e.head;
    ghost var i, done := 0, [];
    while cur != null
      invariant i <= |e.nodes| && cur == (if i < |e.nodes| then e.nodes[i] else null)
      invariant done == Codec.StoredBytes(e.rows[..i]) && out == buf + done
      decreases |e.nodes| - i
    {
      assert NextIs(e.nodes, i) && Holds(e.nodes[i], e.rows[i]);
      Codec.StoredStep(e.rows, i);
      if cur.id != SENTINEL_ID {
        out := WriteRow(out, cur);
        Associative(buf, done, Codec.RowBytes(e.rows[i]));
        done := done + Codec.RowBytes(e.rows[i]);
      }
      cur := cur.next;
      i := i + 1;
    }
    assert e.rows[..i] == e.rows;
  }

  method EncodeState(e: CRDTEngine) returns (bytes: seq<Byte>)
    requires e.Linked()
    ensures bytes == Codec.EncodeState(SnapshotOf(e))
  {
    var payload := WriteUint32([], e.siteID);
    assert payload == Codec.U32(e.siteID);
    payload := WriteInt32(payload, e.clock);
    var nodeCount := CountNodes(e);
    payload := WriteUint32(payload, nodeCount);
    payload := WriteNodes(payload, e);
    assert payload == Codec.StatePayload(SnapshotOf(e));
    bytes := BuildFrame(Codec.STATE, payload);
  }

  method ReadRow(data: seq<Byte>, offset: nat) returns (row: Row, next: nat)
    requires offset + 18 <= |data|
    ensures row == Codec.RowAt(data, offset) && next == offset + 18
  {
    var id, left;
    id, next := ReadId(data, offset);
    left, next := ReadId(data, next);
    var value := data[next];
    var tombstoned := data[next + 1] != 0;
    row, next := Row(id, value, tombstoned, left), next + 2;
  }

  /** Accepts exactly the well-framed byte strings, and reads nothing outside the buffer. */
  method DecodeState(bytes: seq<Byte>) returns (r: Result<CRDTEngine>)
    ensures r.Ok? <==> Codec.ParseState(bytes).Ok?
    ensures r.Ok? ==>
              && fresh(r.value) && fresh(r.value.cells) && r.value.Linked()
              && SnapshotOf(r.value) == Codec.ParseState(bytes).value
              && r.value.content == ContentOf(r.value.rows)
  {
    if |bytes| < 5 {
      return Err;
    }
    if bytes[0] != Codec.STATE {
      return Err;
    }
    var payloadLen, offset := ReadUint32(bytes, 1);
    if |bytes| - offset < payloadLen {
      return Err;
    }
    if payloadLen < 12 {
      return Err;
    }
    var siteID, clock, nodeCount;
    siteID, offset := ReadUint32(bytes, offset);
    clock, offset := ReadInt32(bytes, offset);
    nodeCount, offset := ReadUint32(bytes, offset);
    var expected: int := 12 + 18 * (nodeCount as int);
    if payloadLen < expected {
      return Err;
    }
    var e := Rebuild(bytes, siteID, clock, nodeCount, offset, Codec.RowsAt(bytes, offset, nodeCount));
    return Ok(e);
  }

  /** One turn of the loop over the stored rows: a node behind the last one. */
  method RestoreNext(e: CRDTEngine, tail: Node, bytes: seq<Byte>, offset: nat,
                     ghost start: nat, ghost i: nat, ghost stored: seq<Row>)
    returns (node: Node, next: nat)
    requires i < |stored| && offset == start + 18 * i && start + 18 * |stored| <= |bytes|
    requires stored == Codec.RowsAt(bytes, start, |stored|)
    requires e.Linked() && tail == e.nodes[|e.nodes| - 1] && e.rows == [SENTINEL_ROW] + stored[..i]
    modifies e`index, e`nodes, e`rows, e`cells, tail`next
    ensures e.Linked() && node == e.nodes[|e.nodes| - 1] && e.rows == [SENTINEL_ROW] + stored[..i + 1]
    ensures next == offset + 18 && fresh(e.cells - old(e.cells))
  {
    var row;
    row, next := ReadRow(bytes, offset);
    assert row == stored[i] && stored[..i + 1] == stored[..i] + [row];
    Associative([SENTINEL_ROW], stored[..i], [row]);
    node := e.Append(tail, row);
  }

  method Rebuild(bytes: seq<Byte>, siteID: UInt32, clock: Int32, nodeCount: UInt32, start: nat,
                 ghost stored: seq<Row>)
    returns (e: CRDTEngine)
    requires start + 18 * nodeCount <= |bytes| && |stored| == nodeCount
    requires stored == Codec.RowsAt(bytes, start, nodeCount)
    ensures fresh(e) && fresh(e.cells) && e.Linked()
    ensures SnapshotOf(e) == Codec.Snapshot(siteID, clock, [SENTINEL_ROW] + stored)
    ensures e.content == ContentOf(e.rows)
  {
    e := new CRDTEngine(siteID);
    e.clock := clock;
    var tail := e.head;
    var offset := start;
    var i: UInt32 := 0;
    while i < nodeCount
      invariant i <= nodeCount && offset == start + 18 * i
      invariant fresh(e) && fresh(e.cells) && e.Linked() && e.clock == clock && e.siteID == siteID
      invariant tail == e.nodes[|e.nodes| - 1] && e.rows == [SENTINEL_ROW] + stored[..i]
    {
      tail, offset := RestoreNext(e, tail, bytes, offset, start, i, stored);
      i := i + 1;
    }
    assert stored[..i] == stored;
    e.Recognise();
  }
}
