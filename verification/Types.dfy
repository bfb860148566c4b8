/** The value types of the replicated text: identities, operations and the
    integer widths the program stores them in. */
module Types {

  const INT32_MAX: int := 0x7FFF_FFFF

  type Int32 = x: int | -0x8000_0000 <= x <= 0x7FFF_FFFF
  type UInt32 = x: int | 0 <= x < 0x1_0000_0000
  type Byte = x: int | 0 <= x < 256

  /** A Lamport timestamp; ordered by clock, ties broken by site. */
  datatype CharID = CharID(clock: Int32, siteID: UInt32) {
    predicate Less(o: CharID) {
      if clock != o.clock then clock < o.clock else siteID < o.siteID
    }

    predicate Greater(o: CharID) {
      o.Less(this)
    }
  }

  const SENTINEL_ID: CharID := CharID(0, 0)

  datatype OpType = INSERT | DELETE

  /** The unit of replication. `left` and `value` mean something for INSERT only. */
  datatype Operation = Operation(kind: OpType, id: CharID, left: CharID, value: Byte)

  /** One record of the document sequence. */
  datatype Row = Row(id: CharID, value: Byte, tombstoned: bool, left: CharID)

  const SENTINEL_ROW: Row := Row(SENTINEL_ID, 0, true, SENTINEL_ID)

  /** What a replica knows of one character, apart from its place in the document. */
  datatype Entry = Entry(left: CharID, value: Byte, dead: bool)

  /** The characters a replica has integrated. The sentinel is never among the keys. */
  type Content = map<CharID, Entry>

  /** The index lookup: the sentinel is always indexed. */
  predicate Known(c: Content, id: CharID) {
    id == SENTINEL_ID || id in c
  }

  function RowOf(id: CharID, e: Entry): Row {
    Row(id, e.value, e.dead, e.left)
  }

  function InsertOp(id: CharID, e: Entry): Operation {
    Operation(INSERT, id, e.left, e.value)
  }

  function DeleteOp(id: CharID): Operation {
    Operation(DELETE, id, SENTINEL_ID, 0)
  }

  lemma OrderIsStrictAndTotal(a: CharID, b: CharID, c: CharID)
    ensures !a.Less(a)
    ensures a.Less(b) && b.Less(c) ==> a.Less(c)
    ensures a.Less(b) || b.Less(a) || a == b
    ensures !(a.Less(b) && b.Less(a))
    ensures a.Greater(b) <==> a.clock > b.clock || (a.clock == b.clock && a.siteID > b.siteID)
  {
  }
}
