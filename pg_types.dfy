/**
 * Host-engine vocabulary shared by the implicit-column model: object
 * identifiers, fixed-width integers, the type OIDs the subsystem names,
 * the relation descriptor handed to the catalog operations, and the
 * outcome of an operation (finished, finished with a WARNING, or aborted
 * with an ERROR).
 */
module PgTypes {

  datatype Option<+T> = None | Some(value: T)

  /** An object identifier: an unsigned 32-bit value. */
  type Oid = x: int | 0 <= x < 0x1_0000_0000

  const InvalidOid: Oid := 0

  /** Type OIDs of `timestamp` and `timestamptz` in the host's pg_type. */
  const TIMESTAMPOID: Oid := 1114
  const TIMESTAMPTZOID: Oid := 1184

  /** Signed 16-bit and 64-bit integers of the host. */
  type Int16 = x: int | -0x8000 <= x < 0x8000
  type Int64 = x: int | -0x8000_0000_0000_0000 <= x < 0x8000_0000_0000_0000

  /** An attribute number; 0 is the "no attribute" sentinel. */
  type AttrNumber = Int16

  const InvalidAttrNumber: AttrNumber := 0

  /** Microseconds since the host's epoch. */
  type Timestamp = Int64

  /** The host never lets a heap relation carry more than 1600 attributes. */
  const MaxHeapAttributeNumber: int := 1600

  type AttrCount = n: int | 0 <= n <= MaxHeapAttributeNumber

  /** `relkind` values the subsystem distinguishes, and `relpersistence` of a temporary relation. */
  const RELKIND_RELATION: char := 'r'
  const RELKIND_PARTITIONED_TABLE: char := 'p'
  const RELKIND_INDEX: char := 'i'
  const RELKIND_PARTITIONED_INDEX: char := 'I'
  const RELKIND_COMPOSITE_TYPE: char := 'c'
  const RELPERSISTENCE_TEMP: char := 't'

  /** The parts of an open relation descriptor the subsystem reads. */
  datatype RelationData = RelationData(relid: Oid, natts: AttrCount, relname: string)

  /** A relation handle; `None` is the NULL handle that `RelationIsValid` rejects. */
  type Relation = Option<RelationData>

  /** Why an operation raised ERROR. */
  datatype Failure =
    | InvalidRelation      // a NULL relation handed to add or remove
    | UniqueViolation      // the unique index on (ic_relid, ic_attname) refused an insert
    | IncompatibleTable    // the compatibility check said no
    | FeatureNotSupported  // the relation kind cannot carry implicit columns
    | WrongObjectType      // `table_open` refused the relation kind
    | MigrationFailed      // an error inside the migration's PG_TRY block

  /** What a WARNING said. */
  datatype Warning =
    | TimeColumnMissing        // remove on a table without the column
    | NoTimeRecordFound        // remove's delete loop found nothing
    | TimeColumnAlreadyPresent // migrate (add) on a table that has the column

  /** How an operation ended: silently, after a WARNING, or by raising ERROR. */
  datatype Outcome = Done | Warned(warning: Warning) | Failed(failure: Failure)
}
