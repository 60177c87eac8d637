/**
 * The executor's question whether a scan node's relation has implicit
 * columns, answered from the implicit-column catalog.
 */
module ExecScanHook {
  import opened PgTypes
  import opened ImplicitColumnsDefs
  import opened ImplicitColumns

  /**
   * `ExecSupportsImplicitColumns`: false when the scan has no current
   * relation, otherwise whether the relation's table has the implicit
   * time column.
   */
  method ExecSupportsImplicitColumns(catalog: ImplicitColumnsCatalog, relation: Relation) returns (b: bool)
    ensures b <==> relation.Some? && HasImplicitTime(catalog.rows, relation.value.relid)
  {
    if relation.None? {
      return false;
    }
    b := catalog.TableHasImplicitTime(relation.value.relid);
  }
}
