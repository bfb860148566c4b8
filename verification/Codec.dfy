/** The wire format: what bytes an operation and a whole engine become, and what
    a receiver makes of any byte string. */
module Codec {
  import opened Types
  import opened Engine

  const OPERATION: Byte := 1
  const STATE: Byte := 2

  // --- 32-bit fields, big-endian ---------------------------------------------

  function U32(v: UInt32): (b: seq<Byte>)
    ensures |b| == 4
  {
    [v / 0x100_0000, v / 0x1_0000 % 0x100, v / 0x100 % 0x100, v % 0x100]
  }

  /** The cast from int32_t to uint32_t, and back. */
  function Unsigned(v: Int32): UInt32 {
    if v < 0 then v + 0x1_0000_0000 else v
  }

  function Signed(v: UInt32): Int32 {
    if v <= INT32_MAX then v else v - 0x1_0000_0000
  }

  function I32(v: Int32): (b: seq<Byte>)
    ensures |b| == 4
  {
    U32(Unsigned(v))
  }

  function Read32(b: seq<Byte>, at: nat): (v: UInt32)
    requires at + 4 <= |b|
    ensures v == 16777216 * (b[at] as int) + 65536 * (b[at + 1] as int) + 256 * (b[at + 2] as int) + b[at + 3]
  {
    var b3: int, b2: int, b1: int, b0: int := b[at], b[at + 1], b[at + 2], b[at + 3];
    b3 * 0x100_0000 + b2 * 0x1_0000 + b1 * 0x100 + b0
  }

  /** `part` stands at position `at` of `b`. */
  predicate At(b: seq<Byte>, at: nat, part: seq<Byte>) {
    at + |part| <= |b| && b[at..at + |part|] == part
  }

  lemma Split(b: seq<Byte>, at: nat, x: seq<Byte>, y: seq<Byte>)
    requires At(b, at, x + y)
    ensures At(b, at, x) && At(b, at + |x|, y)
  {
    var w := b[at..at + |x + y|];
    assert b[at..at + |x|] == w[..|x|] == x;
    assert b[at + |x|..at + |x| + |y|] == w[|x|..] == y;
  }

  lemma Shifts(v: UInt32)
    ensures var q1: int := v / 0x100; var q2: int := q1 / 0x100;
            v / 0x1_0000 == q2 && v / 0x100_0000 == q2 / 0x100
  {
    var q1: int, r0: int := v / 0x100, v % 0x100;
    var q2: int, r1: int := q1 / 0x100, q1 % 0x100;
    var q3: int, r2: int := q2 / 0x100, q2 % 0x100;
    assert v == q2 * 0x1_0000 + (r1 * 0x100 + r0);
    assert v == q3 * 0x100_0000 + (r2 * 0x1_0000 + r1 * 0x100 + r0);
  }

  lemma Digits32(v: UInt32)
    ensures var b := U32(v);
            var b3: int, b2: int, b1: int, b0: int := b[0], b[1], b[2], b[3];
            b3 * 0x100_0000 + b2 * 0x1_0000 + b1 * 0x100 + b0 == v
  {
    Shifts(v);
    var q1: int := v / 0x100;
    var q2: int := q1 / 0x100;
    assert v == q1 * 0x100 + v % 0x100 && q1 == q2 * 0x100 + q1 % 0x100;
    assert q2 == q2 / 0x100 * 0x100 + q2 % 0x100;
  }

  /** A field is read back from wherever it was written. */
  lemma Reads(b: seq<Byte>, at: nat, v: UInt32)
    requires At(b, at, U32(v))
    ensures Read32(b, at) == v
  {
    var w := b[at..at + 4];
    assert w[0] == b[at] && w[1] == b[at + 1] && w[2] == b[at + 2] && w[3] == b[at + 3];
    Digits32(v);
  }

  lemma Appended(buf: seq<Byte>, v: UInt32)
    ensures Read32(buf + U32(v), |buf|) == v
  {
    assert (buf + U32(v))[|buf|..|buf| + 4] == U32(v);
    Reads(buf + U32(v), |buf|, v);
  }

  lemma SignedUnsigned(v: Int32)
    ensures Signed(Unsigned(v)) == v
  {
  }

  function Frame(kind: Byte, payload: seq<Byte>): seq<Byte> {
    [kind] + U32(|payload| % 0x1_0000_0000) + payload
  }

  function IdBytes(id: CharID): (b: seq<Byte>)
    ensures |b| == 8
  {
    I32(id.clock) + U32(id.siteID)
  }

  function IdAt(b: seq<Byte>, at: nat): CharID
    requires at + 8 <= |b|
  {
    CharID(Signed(Read32(b, at)), Read32(b, at + 4))
  }

  lemma ReadsId(b: seq<Byte>, at: nat, id: CharID)
    requires At(b, at, IdBytes(id))
    ensures IdAt(b, at) == id
  {
    Split(b, at, I32(id.clock), U32(id.siteID));
    Reads(b, at, Unsigned(id.clock));
    Reads(b, at + 4, id.siteID);
    SignedUnsigned(id.clock);
  }

  // --- operations ------------------------------------------------------------

  function OpPayload(op: Operation): (b: seq<Byte>)
    ensures |b| == 18
  {
    [if op.kind == INSERT then 0 else 1] + IdBytes(op.id) + IdBytes(op.left) + [op.value]
  }

  function EncodeOp(op: Operation): (b: seq<Byte>)
    ensures |b| == 23
  {
    Frame(OPERATION, OpPayload(op))
  }

  function OpAt(b: seq<Byte>, at: nat): Operation
    requires at + 18 <= |b|
  {
    Operation(if b[at] == 0 then INSERT else DELETE, IdAt(b, at + 1), IdAt(b, at + 9), b[at + 17])
  }

  function ParseOp(b: seq<Byte>): Result<Operation> {
    if |b| < 5 || b[0] != OPERATION || |b| - 5 < Read32(b, 1) || Read32(b, 1) < 18 then Err
    else Ok(OpAt(b, 5))
  }

  lemma FrameHeader(kind: Byte, payload: seq<Byte>, suffix: seq<Byte>)
    ensures var b := Frame(kind, payload) + suffix;
            && |b| == 5 + |payload| + |suffix| && b[0] == kind
            && Read32(b, 1) == |payload| % 0x1_0000_0000 && At(b, 5, payload)
  {
    var b := Frame(kind, payload) + suffix;
    assert At(b, 1, U32(|payload| % 0x1_0000_0000));
    Reads(b, 1, |payload| % 0x1_0000_0000);
  }

  /** The layout of an operation frame, byte by byte. Clocks are big-endian in two's
      complement, sites big-endian. */
  lemma OpLayout(op: Operation)
    ensures var b := EncodeOp(op);
            && |b| == 23 && b[0] == 1 && Read32(b, 1) == 18
            && b[5] == (if op.kind == INSERT then 0 else 1)
            && Read32(b, 6) == (if op.id.clock < 0 then op.id.clock + 0x1_0000_0000 else op.id.clock)
            && Read32(b, 10) == op.id.siteID
            && Read32(b, 14) == (if op.left.clock < 0 then op.left.clock + 0x1_0000_0000 else op.left.clock)
            && Read32(b, 18) == op.left.siteID && b[22] == op.value
  {
    var b := EncodeOp(op);
    OpPayloadAt(op);
    IdFields(b, 6, op.id);
    IdFields(b, 14, op.left);
  }

  lemma OpPayloadAt(op: Operation)
    ensures var b := EncodeOp(op);
            && b[0] == OPERATION && Read32(b, 1) == 18 && b[5] == (if op.kind == INSERT then 0 else 1)
            && At(b, 6, IdBytes(op.id)) && At(b, 14, IdBytes(op.left)) && b[22] == op.value
  {
    var b := EncodeOp(op);
    FrameHeader(OPERATION, OpPayload(op), []);
    assert b + [] == b;
    var kind: seq<Byte> := [if op.kind == INSERT then 0 else 1];
    Split(b, 5, kind + IdBytes(op.id) + IdBytes(op.left), [op.value]);
    Split(b, 5, kind + IdBytes(op.id), IdBytes(op.left));
    Split(b, 5, kind, IdBytes(op.id));
    assert b[5..6][0] == b[5] && b[22..23][0] == b[22];
  }

  lemma IdFields(b: seq<Byte>, at: nat, id: CharID)
    requires At(b, at, IdBytes(id))
    ensures Read32(b, at) == (if id.clock < 0 then id.clock + 0x1_0000_0000 else id.clock)
    ensures Read32(b, at + 4) == id.siteID
  {
    Split(b, at, I32(id.clock), U32(id.siteID));
    Reads(b, at, Unsigned(id.clock));
    Reads(b, at + 4, id.siteID);
  }

  /** What an accepted byte string is read as, byte by byte. */
  lemma OpReading(b: seq<Byte>)
    ensures ParseOp(b).Ok? <==> 5 <= |b| && b[0] == 1 && 18 <= Read32(b, 1) <= |b| - 5
    ensures ParseOp(b).Ok? ==>
              var op := ParseOp(b).value;
              && (op.kind == INSERT <==> b[5] == 0)
              && op.id.clock == (if Read32(b, 6) < 0x8000_0000 then Read32(b, 6) else Read32(b, 6) - 0x1_0000_0000)
              && op.id.siteID == Read32(b, 10)
              && op.left.clock == (if Read32(b, 14) < 0x8000_0000 then Read32(b, 14) else Read32(b, 14) - 0x1_0000_0000)
              && op.left.siteID == Read32(b, 18) && op.value == b[22]
  {
  }

  /** The decoder restores every operation, whatever follows the frame. */
  lemma OpRoundTrip(op: Operation, suffix: seq<Byte>)
    ensures ParseOp(EncodeOp(op) + suffix) == Ok(op)
  {
    var p := OpPayload(op);
    var b := EncodeOp(op) + suffix;
    FrameHeader(OPERATION, p, suffix);
    var kind: seq<Byte> := [if op.kind == INSERT then 0 else 1];
    Split(b, 5, kind + IdBytes(op.id) + IdBytes(op.left), [op.value]);
    Split(b, 5, kind + IdBytes(op.id), IdBytes(op.left));
    Split(b, 5, kind, IdBytes(op.id));
    ReadsId(b, 6, op.id);
    ReadsId(b, 14, op.left);
    assert b[5..6][0] == b[5] && b[22..23][0] == b[22];
  }

  /** The header of a truncated frame announces more than is there. */
  lemma PrefixHeader(kind: Byte, payload: seq<Byte>, n: nat)
    requires n < |Frame(kind, payload)| && |payload| < 0x1_0000_0000
    ensures 5 <= n ==> Read32(Frame(kind, payload)[..n], 1) > n - 5
  {
    var b := Frame(kind, payload);
    FrameHeader(kind, payload, []);
    assert b + [] == b;
    if 5 <= n {
      assert Read32(b[..n], 1) == Read32(b, 1);
    }
  }

  /** A truncated frame is never taken for an operation. */
  lemma OpPrefixRejected(op: Operation, n: nat)
    requires n < |EncodeOp(op)|
    ensures ParseOp(EncodeOp(op)[..n]) == Err
  {
    PrefixHeader(OPERATION, OpPayload(op), n);
  }

  /** The other way round: a field, an identity and a payload are rewritten as read. */
  lemma Rewrites(b: seq<Byte>, at: nat)
    requires at + 4 <= |b|
    ensures U32(Read32(b, at)) == b[at..at + 4]
  {
    var w := b[at..at + 4];
    assert w == [b[at], b[at + 1], b[at + 2], b[at + 3]];
    Digits(b[at], b[at + 1], b[at + 2], b[at + 3]);
  }

  lemma Digits(b3: Byte, b2: Byte, b1: Byte, b0: Byte)
    ensures var v: int := b3 as int * 0x100_0000 + b2 as int * 0x1_0000 + b1 as int * 0x100 + b0;
            && v / 0x100_0000 == b3 && v / 0x1_0000 % 0x100 == b2 && v / 0x100 % 0x100 == b1 && v % 0x100 == b0
  {
    var v: int := b3 as int * 0x100_0000 + b2 as int * 0x1_0000 + b1 as int * 0x100 + b0;
    var h2: int := b3 as int * 0x100 + b2;
    var h1: int := h2 * 0x100 + b1;
    assert v == h1 * 0x100 + b0 && v / 0x100 == h1;
    assert v == h2 * 0x1_0000 + (b1 as int * 0x100 + b0) && v / 0x1_0000 == h2;
  }

  lemma RewritesId(b: seq<Byte>, at: nat)
    requires at + 8 <= |b|
    ensures IdBytes(IdAt(b, at)) == b[at..at + 8]
  {
    Rewrites(b, at);
    Rewrites(b, at + 4);
    assert Unsigned(Signed(Read32(b, at))) == Read32(b, at);
    assert b[at..at + 8] == b[at..at + 4] + b[at + 4..at + 8];
  }

  lemma RewritesPayload(b: seq<Byte>, at: nat)
    requires at + 18 <= |b| && b[at] <= 1
    ensures OpPayload(OpAt(b, at)) == b[at..at + 18]
  {
    RewritesId(b, at + 1);
    RewritesId(b, at + 9);
    assert b[at..at + 18] == [b[at]] + b[at + 1..at + 9] + b[at + 9..at + 17] + [b[at + 17]];
  }

  lemma FrameIsCanonical(op: Operation)
    ensures var b := EncodeOp(op); ParseOp(b) == Ok(op) && Read32(b, 1) == 18 && b[5] <= 1
  {
    var b, p := EncodeOp(op), OpPayload(op);
    OpRoundTrip(op, []);
    FrameHeader(OPERATION, p, []);
    assert b + [] == b;
    assert b[5..23][0] == b[5] == p[0];
  }

  lemma CanonicalIsFrame(b: seq<Byte>, op: Operation)
    requires |b| == 23 && b[0] == OPERATION && OpAt(b, 5) == op && Read32(b, 1) == 18 && b[5] <= 1
    ensures b == EncodeOp(op)
  {
    RewritesPayload(b, 5);
    Rewrites(b, 1);
    SplitFrame(b);
  }

  lemma SplitFrame(b: seq<Byte>)
    requires |b| == 23
    ensures b == [b[0]] + b[1..5] + b[5..23]
  {
  }

  /** The frame of an operation is the one canonical byte string the decoder maps to it. */
  lemma OpFrameExact(b: seq<Byte>, op: Operation)
    ensures b == EncodeOp(op) <==>
            |b| == 23 && ParseOp(b) == Ok(op) && Read32(b, 1) == 18 && b[5] <= 1
  {
    FrameIsCanonical(op);
    if |b| == 23 && ParseOp(b) == Ok(op) && Read32(b, 1) == 18 && b[5] <= 1 {
      CanonicalIsFrame(b, op);
    }
  }

  // --- engine snapshots --------------------------------------------------------

  datatype Snapshot = Snapshot(siteID: UInt32, clock: Int32, rows: seq<Row>)

  function RowBytes(r: Row): (b: seq<Byte>)
    ensures |b| == 18
  {
    IdBytes(r.id) + IdBytes(r.left) + [r.value, if r.tombstoned then 1 else 0]
  }

  function RowAt(b: seq<Byte>, at: nat): Row
    requires at + 18 <= |b|
  {
    Row(IdAt(b, at), b[at + 16], b[at + 17] != 0, IdAt(b, at + 8))
  }

  lemma ReadsRow(b: seq<Byte>, at: nat, r: Row)
    requires At(b, at, RowBytes(r))
    ensures RowAt(b, at) == r
  {
    var flags: seq<Byte> := [r.value, if r.tombstoned then 1 else 0];
    Split(b, at, IdBytes(r.id) + IdBytes(r.left), flags);
    Split(b, at, IdBytes(r.id), IdBytes(r.left));
    ReadsId(b, at, r.id);
    ReadsId(b, at + 8, r.left);
    var w := b[at + 16..at + 18];
    assert w[0] == b[at + 16] && w[1] == b[at + 17];
  }

  /** The rows a snapshot stores: all but the sentinel. */
  function Stored(rows: seq<Row>): (s: seq<Row>)
    ensures |s| <= |rows|
  {
    if rows == [] then []
    else
      var n := |rows| - 1;
      Stored(rows[..n]) + if rows[n].id == SENTINEL_ID then [] else [rows[n]]
  }

  function AllBytes(rows: seq<Row>): (b: seq<Byte>)
    ensures |b| == 18 * |rows|
  {
    if rows == [] then [] else AllBytes(rows[..|rows| - 1]) + RowBytes(rows[|rows| - 1])
  }

  function StatePayload(s: Snapshot): (b: seq<Byte>)
    ensures |b| == 12 + 18 * |Stored(s.rows)|
  {
    U32(s.siteID) + I32(s.clock) + U32(|Stored(s.rows)| % 0x1_0000_0000) + AllBytes(Stored(s.rows))
  }

  function EncodeState(s: Snapshot): seq<Byte> {
    Frame(STATE, StatePayload(s))
  }

  function RowsAt(b: seq<Byte>, at: nat, n: nat): (rows: seq<Row>)
    requires at + 18 * n <= |b|
    ensures |rows| == n
    ensures forall i :: 0 <= i < n ==> rows[i] == RowAt(b, at + 18 * i)
  {
    seq(n, i requires 0 <= i < n => RowAt(b, at + 18 * i))
  }

  /** The frame is a snapshot and is long enough for its node count. */
  predicate StateFramed(b: seq<Byte>) {
    && 5 <= |b| && b[0] == STATE && Read32(b, 1) <= |b| - 5
    && 12 <= Read32(b, 1) && 12 + 18 * Read32(b, 13) <= Read32(b, 1)
  }

  function ParseState(b: seq<Byte>): Result<Snapshot> {
    if !StateFramed(b) then Err
    else Ok(Snapshot(Read32(b, 5), Signed(Read32(b, 9)), [SENTINEL_ROW] + RowsAt(b, 17, Read32(b, 13))))
  }

  lemma {:induction false} StoredTail(rows: seq<Row>)
    requires |rows| > 0 && rows[0] == SENTINEL_ROW
    requires forall i :: 0 < i < |rows| ==> rows[i].id != SENTINEL_ID
    ensures Stored(rows) == rows[1..]
  {
    var n := |rows| - 1;
    if n > 0 {
      StoredTail(rows[..n]);
      assert rows[1..] == rows[..n][1..] + [rows[n]];
    }
  }

  /** `b` starts with the fields of a snapshot that stores `rows`. */
  predicate StartsWith(b: seq<Byte>, s: Snapshot, rows: seq<Row>) {
    && 17 + 18 * |rows| <= |b| && b[0] == STATE
    && Read32(b, 1) == (12 + 18 * |rows|) % 0x1_0000_0000
    && Read32(b, 5) == s.siteID && Signed(Read32(b, 9)) == s.clock
    && Read32(b, 13) == |rows| % 0x1_0000_0000
    && At(b, 17, AllBytes(rows))
  }

  lemma PayloadFields(b: seq<Byte>, siteID: UInt32, clock: Int32, count: UInt32, tail: seq<Byte>)
    requires At(b, 5, U32(siteID) + I32(clock) + U32(count) + tail)
    ensures 17 + |tail| <= |b| && Read32(b, 5) == siteID && Signed(Read32(b, 9)) == clock
    ensures Read32(b, 13) == count && At(b, 17, tail)
  {
    Split(b, 5, U32(siteID) + I32(clock) + U32(count), tail);
    Split(b, 5, U32(siteID) + I32(clock), U32(count));
    Split(b, 5, U32(siteID), I32(clock));
    Reads(b, 5, siteID);
    Reads(b, 9, Unsigned(clock));
    Reads(b, 13, count);
    SignedUnsigned(clock);
  }

  lemma StateFields(s: Snapshot, suffix: seq<Byte>)
    ensures StartsWith(EncodeState(s) + suffix, s, Stored(s.rows))
  {
    var rows := Stored(s.rows);
    FrameHeader(STATE, StatePayload(s), suffix);
    PayloadFields(EncodeState(s) + suffix, s.siteID, s.clock, |rows| % 0x1_0000_0000, AllBytes(rows));
  }

  lemma RowsAtStep(b: seq<Byte>, at: nat, rows: seq<Row>, row: Row)
    requires at + 18 * |rows| + 18 <= |b| && RowsAt(b, at, |rows|) == rows
    requires RowAt(b, at + 18 * |rows|) == row
    ensures RowsAt(b, at, |rows| + 1) == rows + [row]
  {
    var more := RowsAt(b, at, |rows| + 1);
    assert more[..|rows|] == RowsAt(b, at, |rows|);
    assert more == more[..|rows|] + [more[|rows|]];
  }

  lemma LastRowRead(b: seq<Byte>, bytes: seq<Byte>, front: seq<Row>, last: Row)
    requires |bytes| == 18 * |front| && At(b, 17, bytes + RowBytes(last))
    requires RowsAt(b, 17, |front|) == front
    ensures 17 + 18 * |front| + 18 <= |b| && RowsAt(b, 17, |front| + 1) == front + [last]
  {
    Split(b, 17, bytes, RowBytes(last));
    ReadsRow(b, 17 + 18 * |front|, last);
    RowsAtStep(b, 17, front, last);
  }

  /** The rows are read back one by one. */
  lemma {:induction false} StoredRowsRead(b: seq<Byte>, rows: seq<Row>)
    requires At(b, 17, AllBytes(rows))
    ensures 17 + 18 * |rows| <= |b| && RowsAt(b, 17, |rows|) == rows
  {
    if rows != [] {
      var front, last := rows[..|rows| - 1], rows[|rows| - 1];
      Split(b, 17, AllBytes(front), RowBytes(last));
      StoredRowsRead(b, front);
      LastRowRead(b, AllBytes(front), front, last);
      assert rows == front + [last];
    }
  }

  function StoredBytes(rows: seq<Row>): seq<Byte> {
    AllBytes(Stored(rows))
  }

  lemma StoredStep(rows: seq<Row>, i: nat)
    requires i < |rows|
    ensures StoredBytes(rows[..i + 1]) ==
            StoredBytes(rows[..i]) + if rows[i].id == SENTINEL_ID then [] else RowBytes(rows[i])
  {
    var s := Stored(rows[..i]);
    assert rows[..i + 1][..i] == rows[..i];
    assert (s + [rows[i]])[..|s|] == s && s + [] == s;
  }

  /** A 32-bit counter over the stored rows. */
  lemma CountStep(rows: seq<Row>, i: nat)
    requires i < |rows|
    ensures |Stored(rows[..i + 1])| % 0x1_0000_0000 ==
            if rows[i].id == SENTINEL_ID then |Stored(rows[..i])| % 0x1_0000_0000
            else (|Stored(rows[..i])| % 0x1_0000_0000 + 1) % 0x1_0000_0000
  {
    assert rows[..i + 1][..i] == rows[..i];
    ModStep(|Stored(rows[..i])|);
  }

  lemma ModStep(x: nat)
    ensures (x + 1) % 0x1_0000_0000 == (x % 0x1_0000_0000 + 1) % 0x1_0000_0000
  {
  }

  /** The shape `encodeState` relies on: only the first row is the sentinel. */
  predicate SentinelFirst(rows: seq<Row>) {
    |rows| > 0 && rows[0] == SENTINEL_ROW && forall i :: 0 < i < |rows| ==> rows[i].id != SENTINEL_ID
  }

  lemma FittingIsFramed(b: seq<Byte>, s: Snapshot, rows: seq<Row>)
    requires StartsWith(b, s, rows)
    ensures 12 + 18 * |rows| < 0x1_0000_0000 ==> StateFramed(b) && Read32(b, 13) == |rows|
    ensures 12 + 18 * |rows| >= 0x1_0000_0000 ==> !StateFramed(b) || Read32(b, 13) < |rows|
  {
    if |rows| < 0x1_0000_0000 {
      assert |rows| % 0x1_0000_0000 == |rows|;
    }
  }

  lemma LengthDecides(b: seq<Byte>, s: Snapshot, rows: seq<Row>)
    requires s.rows == [SENTINEL_ROW] + rows && StartsWith(b, s, rows)
    ensures ParseState(b) == Ok(s) <==> 12 + 18 * |rows| < 0x1_0000_0000
  {
    FittingIsFramed(b, s, rows);
    StoredRowsRead(b, rows);
  }

  /** A snapshot survives the transfer exactly when its payload length fits the
      32-bit length field; beyond that it is rejected or silently cut short. */
  lemma StateRoundTrip(s: Snapshot, suffix: seq<Byte>)
    requires SentinelFirst(s.rows)
    ensures ParseState(EncodeState(s) + suffix) == Ok(s) <==> 12 + 18 * (|s.rows| - 1) < 0x1_0000_0000
  {
    StoredTail(s.rows);
    StateFields(s, suffix);
    assert s.rows == [SENTINEL_ROW] + s.rows[1..];
    LengthDecides(EncodeState(s) + suffix, s, s.rows[1..]);
  }

  /** A truncated snapshot is never loaded. */
  lemma StatePrefixRejected(s: Snapshot, n: nat)
    requires n < |EncodeState(s)| && 12 + 18 * |Stored(s.rows)| < 0x1_0000_0000
    ensures ParseState(EncodeState(s)[..n]) == Err
  {
    PrefixHeader(STATE, StatePayload(s), n);
  }

  /** One stored row, byte by byte: identity, left neighbour, value, tombstone flag. */
  predicate RowLaidOut(b: seq<Byte>, at: nat, r: Row)
    requires at + 18 <= |b|
  {
    && Read32(b, at) == (if r.id.clock < 0 then r.id.clock + 0x1_0000_0000 else r.id.clock)
    && Read32(b, at + 4) == r.id.siteID
    && Read32(b, at + 8) == (if r.left.clock < 0 then r.left.clock + 0x1_0000_0000 else r.left.clock)
    && Read32(b, at + 12) == r.left.siteID
    && b[at + 16] == r.value && b[at + 17] == (if r.tombstoned then 1 else 0)
  }

  lemma RowLayout(b: seq<Byte>, at: nat, r: Row)
    requires At(b, at, RowBytes(r))
    ensures RowLaidOut(b, at, r)
  {
    var flags: seq<Byte> := [r.value, if r.tombstoned then 1 else 0];
    Split(b, at, IdBytes(r.id) + IdBytes(r.left), flags);
    Split(b, at, IdBytes(r.id), IdBytes(r.left));
    IdFields(b, at, r.id);
    IdFields(b, at + 8, r.left);
    var w := b[at + 16..at + 18];
    assert w[0] == b[at + 16] && w[1] == b[at + 17];
  }

  lemma {:induction false} AllBytesAt(b: seq<Byte>, at: nat, rows: seq<Row>, i: nat)
    requires At(b, at, AllBytes(rows)) && i < |rows|
    ensures At(b, at + 18 * i, RowBytes(rows[i]))
  {
    var n := |rows| - 1;
    Split(b, at, AllBytes(rows[..n]), RowBytes(rows[n]));
    if i < n {
      AllBytesAt(b, at, rows[..n], i);
    }
  }

  lemma ClockField(b: seq<Byte>, at: nat, clock: Int32)
    requires at + 4 <= |b| && Signed(Read32(b, at)) == clock
    ensures Read32(b, at) == (if clock < 0 then clock + 0x1_0000_0000 else clock)
  {
  }

  lemma StoredAt(s: Snapshot)
    requires SentinelFirst(s.rows)
    ensures StartsWith(EncodeState(s), s, s.rows[1..]) && |EncodeState(s)| == 17 + 18 * (|s.rows| - 1)
  {
    StoredTail(s.rows);
    StateFields(s, []);
    assert EncodeState(s) + [] == EncodeState(s);
  }

  /** The layout of a snapshot frame, byte by byte. */
  lemma StateLayout(s: Snapshot)
    requires SentinelFirst(s.rows)
    ensures var b, n := EncodeState(s), |s.rows| - 1;
            && |b| == 17 + 18 * n && b[0] == 2 && Read32(b, 1) == (12 + 18 * n) % 0x1_0000_0000
            && Read32(b, 5) == s.siteID
            && Read32(b, 9) == (if s.clock < 0 then s.clock + 0x1_0000_0000 else s.clock)
            && Read32(b, 13) == n % 0x1_0000_0000
  {
    StoredAt(s);
    ClockField(EncodeState(s), 9, s.clock);
  }

  /** Row `i` of the document, the sentinel not counted, stands at 17 + 18 (i - 1). */
  lemma StateRowLayout(s: Snapshot, i: nat)
    requires SentinelFirst(s.rows) && 0 < i < |s.rows|
    ensures 17 + 18 * i <= |EncodeState(s)| && RowLaidOut(EncodeState(s), 17 + 18 * (i - 1), s.rows[i])
  {
    StoredAt(s);
    AllBytesAt(EncodeState(s), 17, s.rows[1..], i - 1);
    RowLayout(EncodeState(s), 17 + 18 * (i - 1), s.rows[i]);
  }

  /** What an accepted snapshot frame is read as, byte by byte. */
  lemma StateReading(b: seq<Byte>, i: nat)
    ensures ParseState(b).Ok? <==>
              && 17 <= |b| && b[0] == 2 && Read32(b, 1) <= |b| - 5
              && 12 <= Read32(b, 1) && 12 + 18 * Read32(b, 13) <= Read32(b, 1)
    ensures ParseState(b).Ok? ==>
              var s := ParseState(b).value;
              && s.siteID == Read32(b, 5) && |s.rows| == 1 + Read32(b, 13) && s.rows[0] == SENTINEL_ROW
              && s.clock == (if Read32(b, 9) < 0x8000_0000 then Read32(b, 9) else Read32(b, 9) - 0x1_0000_0000)
              && (i < Read32(b, 13) ==>
                    var row, at := s.rows[i + 1], 17 + 18 * i;
                    && row.id.clock == (if Read32(b, at) < 0x8000_0000 then Read32(b, at)
                                        else Read32(b, at) - 0x1_0000_0000)
                    && row.id.siteID == Read32(b, at + 4)
                    && row.left.clock == (if Read32(b, at + 8) < 0x8000_0000 then Read32(b, at + 8)
                                          else Read32(b, at + 8) - 0x1_0000_0000)
                    && row.left.siteID == Read32(b, at + 12) && row.value == b[at + 16]
                    && (row.tombstoned <==> b[at + 17] != 0))
  {
  }
}
