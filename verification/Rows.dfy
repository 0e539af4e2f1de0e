/** Ledger rows, reduced to what topology, storage and resolution read of them. */
module Rows {
  import opened Prelude
  import opened Identity
  import opened Quaternions

  const CENTURY_NS := 3_155_760_000_000_000_000

  /** The range of a duration: a 16-bit century count plus nanoseconds within the century. */
  const EPOCH_MIN := -32_768 * CENTURY_NS
  const EPOCH_MAX := 32_768 * CENTURY_NS

  /** Nanoseconds from J2000 TAI. */
  type Epoch = e: int | EPOCH_MIN <= e <= EPOCH_MAX

  datatype Estimate = MEASURED | ESTIMATED | SIMULATED {
    function Priority(): nat {
      match this
      case MEASURED => 0
      case ESTIMATED => 1
      case SIMULATED => 2
    }
  }

  datatype Row = Row(id: Id, frame: Id, epoch: Epoch, estimate: Estimate, pose: Pose)

  /** The rows of one entity, in stored order. */
  function RowsOf(rows: seq<Row>, id: Id): seq<Row> {
    Filter(rows, (r: Row) => r.id == id)
  }

  function IdsOf(rows: seq<Row>): set<Id> {
    set r | r in rows :: r.id
  }
}
