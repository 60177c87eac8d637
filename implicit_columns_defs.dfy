/**
 * The records of the implicit-column catalog: one catalog row per
 * (table, implicit column name), the in-memory `ImplicitColumn`
 * descriptor, and the `TableImplicitInfo` snapshot assembled from the
 * rows of one table.
 */
module ImplicitColumnsDefs {
  import opened PgTypes

  /** The only implicit column the subsystem knows. */
  const ImplicitTimeColumnName: string := "time"

  /** One row of pg_implicit_columns. */
  datatype ImplicitColumnRow = ImplicitColumnRow(
    icRelid: Oid,          // owning table
    icAttname: string,     // implicit column name
    icAttnum: AttrNumber,  // attribute slot in the physical tuple
    icAtttypid: Oid,       // storage type
    icVisible: bool)       // shown by SELECT *

  /**
   * The unique index on (ic_relid, ic_attname): no two rows share both.
   */
  ghost predicate KeysUnique(rows: seq<ImplicitColumnRow>) {
    forall i, j | 0 <= i < j < |rows| ::
      rows[i].icRelid != rows[j].icRelid || rows[i].icAttname != rows[j].icAttname
  }

  /** In-memory description of one implicit column. */
  datatype ImplicitColumn = ImplicitColumn(
    columnName: string,
    columnType: Oid,
    attnum: AttrNumber,
    isActive: bool,
    createdTime: Timestamp)

  /** Snapshot of the implicit columns of one table. */
  datatype TableImplicitInfo = TableImplicitInfo(
    tableOid: Oid,
    hasImplicitTime: bool,
    timeAttnum: AttrNumber,
    implicitColumns: seq<ImplicitColumn>,
    numImplicitCols: int)

  /**
   * The snapshot's own consistency: the counter counts the list, and the
   * time fields report the list's time column, or the sentinel when the
   * list has none.
   */
  ghost predicate WellFormedInfo(info: TableImplicitInfo) {
    && info.numImplicitCols == |info.implicitColumns|
    && (info.hasImplicitTime <==>
          exists k | 0 <= k < |info.implicitColumns| ::
            info.implicitColumns[k].columnName == ImplicitTimeColumnName)
    && (info.hasImplicitTime ==>
          exists k | 0 <= k < |info.implicitColumns| ::
            info.implicitColumns[k].columnName == ImplicitTimeColumnName &&
            info.implicitColumns[k].attnum == info.timeAttnum)
    && (!info.hasImplicitTime ==> info.timeAttnum == InvalidAttrNumber)
  }
}
