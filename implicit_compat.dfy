/**
 * The backward-compatibility guard of the implicit-column subsystem: the
 * verdict on whether a table may take part, the name-collision warning,
 * the per-operation validators, and the migration that adds or removes the
 * implicit time column of an existing table behind that guard.
 *
 * pg_class and pg_attribute are given as value maps (the syscache lookups
 * by OID and by (OID, column name)); `IsSystemClass` is a flag on the
 * pg_class row.
 */
module ImplicitCompat {
  import opened PgTypes
  import opened ImplicitColumnsDefs
  import opened ImplicitColumns

  /** The parts of a pg_class row the guard reads. */
  datatype ClassRow = ClassRow(
    relname: string,
    relkind: char,
    relpersistence: char,
    relnatts: AttrCount,
    isCatalogOid: bool,       // what IsCatalogRelationOid answers for this OID
    inToastNamespace: bool)   // what IsToastClass answers for this row

  /** The parts of a pg_attribute row the guard reads. */
  datatype AttributeRow = AttributeRow(attisdropped: bool, atttypid: Oid)

  /** The system catalogs as the syscache sees them. */
  datatype SystemCatalogs = SystemCatalogs(
    pgClass: map<Oid, ClassRow>,
    pgAttribute: map<(Oid, string), AttributeRow>)

  /** `is_temporary_table`: the pg_class row exists and is marked temporary. */
  function IsTemporaryTable(sys: SystemCatalogs, tableOid: Oid): (temp: bool)
    ensures temp <==>
      tableOid in sys.pgClass && sys.pgClass[tableOid].relpersistence == RELPERSISTENCE_TEMP
  {
    if tableOid in sys.pgClass then sys.pgClass[tableOid].relpersistence == RELPERSISTENCE_TEMP
    else false
  }

  /**
   * `check_column_name_conflicts`: whether it warns that a user column
   * named "time" is in the way. A dropped column, or one of type
   * timestamp, is not reported. It never raises ERROR.
   */
  function CheckColumnNameConflicts(sys: SystemCatalogs, tableOid: Oid): (warns: bool)
    ensures warns <==>
      && (tableOid, ImplicitTimeColumnName) in sys.pgAttribute
      && !sys.pgAttribute[(tableOid, ImplicitTimeColumnName)].attisdropped
      && sys.pgAttribute[(tableOid, ImplicitTimeColumnName)].atttypid != TIMESTAMPOID
  {
    var key := (tableOid, ImplicitTimeColumnName);
    if key in sys.pgAttribute then
      var a := sys.pgAttribute[key];
      !a.attisdropped && a.atttypid != TIMESTAMPOID
    else false
  }

  /**
   * The name check compares against `timestamp` only: a live user column
   * "time" of type timestamp draws no warning, one of type timestamptz
   * (which the type check accepts for an implicit column) does, and a
   * dropped one never does.
   */
  lemma NameCheckSparesOnlyTimestamp(sys: SystemCatalogs, tableOid: Oid, typeOid: Oid, dropped: bool)
    requires sys.pgAttribute == map[(tableOid, ImplicitTimeColumnName) := AttributeRow(dropped, typeOid)]
    ensures typeOid == TIMESTAMPOID ==> !CheckColumnNameConflicts(sys, tableOid)
    ensures (typeOid == TIMESTAMPTZOID && !dropped) ==> CheckColumnNameConflicts(sys, tableOid)
    ensures (typeOid == TIMESTAMPTZOID && !dropped) ==> ValidateImplicitColumnType(typeOid)
    ensures dropped ==> !CheckColumnNameConflicts(sys, tableOid)
  {
  }

  /**
   * The host's `IsSystemClass(relid, reltuple)`: a catalog OID is a
   * system class without looking at the tuple; otherwise the answer is
   * read from the tuple, and `None` stands for reading through a NULL one.
   */
  function IsSystemClassCall(isCatalogOid: bool, reltuple: Option<ClassRow>): (r: Option<bool>)
    ensures r.None? <==> !isCatalogOid && reltuple.None?
    ensures r.Some? && reltuple.Some? ==> (r.value <==> isCatalogOid || reltuple.value.inToastNamespace)
  {
    if isCatalogOid then Some(true)
    else match reltuple
      case None => None
      case Some(t) => Some(t.inToastNamespace)
  }

  /** `is_system_table` as written: the system test is handed a NULL tuple. */
  function IsSystemTableAsWritten(sys: SystemCatalogs, tableOid: Oid): (r: Option<bool>)
    requires tableOid in sys.pgClass
    ensures r.Some? ==> r.value
  {
    IsSystemClassCall(sys.pgClass[tableOid].isCatalogOid, None)
  }

  /**
   * As written, the system test reads through the NULL tuple for every
   * relation whose OID is not a catalog OID, that is for every user table.
   */
  lemma SystemTestReadsNullTuple(sys: SystemCatalogs, tableOid: Oid)
    requires tableOid in sys.pgClass
    requires !sys.pgClass[tableOid].isCatalogOid
    ensures IsSystemTableAsWritten(sys, tableOid).None?
  {
  }

  /**
   * `is_system_table` with the pg_class tuple the guard has already
   * fetched: always answers, and agrees with the call as written whenever
   * that one answers.
   */
  function IsSystemTable(sys: SystemCatalogs, tableOid: Oid): (b: bool)
    requires tableOid in sys.pgClass
    ensures b <==> sys.pgClass[tableOid].isCatalogOid || sys.pgClass[tableOid].inToastNamespace
    ensures IsSystemTableAsWritten(sys, tableOid).Some? ==> b == IsSystemTableAsWritten(sys, tableOid).value
  {
    IsSystemClassCall(sys.pgClass[tableOid].isCatalogOid, Some(sys.pgClass[tableOid])).value
  }

  /** Which branch of `check_backward_compatibility` a table takes. */
  datatype CompatVerdict =
    | InvalidTable                  // InvalidOid: WARNING, false
    | MissingTable                  // no pg_class row: WARNING, false
    | NotOrdinaryRelation           // relkind is not 'r': true
    | SystemRelation                // a system table: true
    | OrdinaryRelation(temporary: bool, nameConflict: bool)  // true, maybe a WARNING

  /**
   * The branches of `check_backward_compatibility`, in the order the code
   * tests them: the OID, the pg_class row, relkind, then system-ness; only
   * an ordinary user table reaches the temporary test and the name check.
   */
  function CompatibilityVerdict(sys: SystemCatalogs, tableOid: Oid): (v: CompatVerdict)
    ensures v.InvalidTable? <==> tableOid == InvalidOid
    ensures v.MissingTable? <==> tableOid != InvalidOid && tableOid !in sys.pgClass
    ensures v.NotOrdinaryRelation? <==>
      tableOid != InvalidOid && tableOid in sys.pgClass && sys.pgClass[tableOid].relkind != RELKIND_RELATION
    ensures v.SystemRelation? <==>
      tableOid != InvalidOid && tableOid in sys.pgClass &&
      sys.pgClass[tableOid].relkind == RELKIND_RELATION && IsSystemTable(sys, tableOid)
    ensures v.OrdinaryRelation? ==>
      v.temporary == IsTemporaryTable(sys, tableOid) &&
      v.nameConflict == CheckColumnNameConflicts(sys, tableOid)
  {
    if tableOid == InvalidOid then InvalidTable
    else if tableOid !in sys.pgClass then MissingTable
    else if sys.pgClass[tableOid].relkind != RELKIND_RELATION then NotOrdinaryRelation
    else if IsSystemTable(sys, tableOid) then SystemRelation
    else OrdinaryRelation(IsTemporaryTable(sys, tableOid), CheckColumnNameConflicts(sys, tableOid))
  }

  /**
   * `check_backward_compatibility`: false exactly for the invalid OID and
   * for an OID without a pg_class row. Every existing relation passes,
   * whatever its kind, system-ness, persistence or columns.
   */
  function CheckBackwardCompatibility(sys: SystemCatalogs, tableOid: Oid): (ok: bool)
    ensures ok <==> tableOid != InvalidOid && tableOid in sys.pgClass
  {
    var v := CompatibilityVerdict(sys, tableOid);
    !v.InvalidTable? && !v.MissingTable?
  }

  /**
   * A temporary table is not turned away: it passes the guard, and an
   * ordinary temporary user table reaches the name check flagged
   * temporary.
   */
  lemma TemporaryTablesPassTheGuard(sys: SystemCatalogs, tableOid: Oid)
    requires tableOid != InvalidOid && IsTemporaryTable(sys, tableOid)
    ensures CheckBackwardCompatibility(sys, tableOid)
    ensures sys.pgClass[tableOid].relkind == RELKIND_RELATION && !IsSystemTable(sys, tableOid) ==>
      CompatibilityVerdict(sys, tableOid) == OrdinaryRelation(true, CheckColumnNameConflicts(sys, tableOid))
  {
  }

  /** Whether `check_backward_compatibility` emits the name-collision WARNING. */
  function CompatibilityWarnsOfConflict(sys: SystemCatalogs, tableOid: Oid): (warns: bool)
    ensures warns ==> CheckBackwardCompatibility(sys, tableOid)
    ensures warns <==>
      CheckBackwardCompatibility(sys, tableOid) &&
      sys.pgClass[tableOid].relkind == RELKIND_RELATION && !IsSystemTable(sys, tableOid) &&
      CheckColumnNameConflicts(sys, tableOid)
  {
    var v := CompatibilityVerdict(sys, tableOid);
    v.OrdinaryRelation? && v.nameConflict
  }

  /**
   * A non-ordinary or system relation never reaches the name check: its
   * verdict depends on neither its persistence nor its columns.
   */
  lemma ShortCircuitIgnoresColumns(sys: SystemCatalogs, other: SystemCatalogs, tableOid: Oid)
    requires tableOid in sys.pgClass && tableOid in other.pgClass
    requires sys.pgClass[tableOid].relkind == other.pgClass[tableOid].relkind
    requires IsSystemTable(sys, tableOid) == IsSystemTable(other, tableOid)
    requires sys.pgClass[tableOid].relkind != RELKIND_RELATION || IsSystemTable(sys, tableOid)
    ensures CompatibilityVerdict(sys, tableOid) == CompatibilityVerdict(other, tableOid)
    ensures !CompatibilityWarnsOfConflict(sys, tableOid)
  {
  }

  /**
   * `ensure_legacy_behavior`: for a table without the implicit column it
   * runs the name check; whether that check warns.
   */
  function EnsureLegacyBehavior(sys: SystemCatalogs, rows: seq<ImplicitColumnRow>, tableOid: Oid): (warns: bool)
    ensures warns ==> !HasImplicitTime(rows, tableOid)
    ensures warns <==> !HasImplicitTime(rows, tableOid) && CheckColumnNameConflicts(sys, tableOid)
  {
    if !HasImplicitTime(rows, tableOid) then CheckColumnNameConflicts(sys, tableOid) else false
  }

  /** `validate_insert_compatibility`: both branches accept. */
  function ValidateInsertCompatibility(rows: seq<ImplicitColumnRow>, tableOid: Oid): (ok: bool)
    ensures ok
  {
    if !HasImplicitTime(rows, tableOid) then true else true
  }

  /** `validate_update_compatibility`: both branches accept. */
  function ValidateUpdateCompatibility(rows: seq<ImplicitColumnRow>, tableOid: Oid): (ok: bool)
    ensures ok
  {
    if !HasImplicitTime(rows, tableOid) then true else true
  }

  /** `validate_delete_compatibility`: accepts unconditionally. */
  function ValidateDeleteCompatibility(rows: seq<ImplicitColumnRow>, tableOid: Oid): (ok: bool)
    ensures ok
  {
    true
  }

  /** `validate_select_compatibility`: both branches accept. */
  function ValidateSelectCompatibility(rows: seq<ImplicitColumnRow>, tableOid: Oid): (ok: bool)
    ensures ok
  {
    if !HasImplicitTime(rows, tableOid) then true else true
  }

  /** What `validate_operation_compatibility` returns, and whether the legacy check warned. */
  datatype OperationVerdict = OperationVerdict(compatible: bool, legacyWarning: bool)

  /**
   * `validate_operation_compatibility`: false for a NULL operation, which
   * skips every check; otherwise the legacy check runs, the operation name
   * picks a validator, and any other name keeps the initial true.
   */
  function ValidateOperationCompatibility(
    sys: SystemCatalogs, rows: seq<ImplicitColumnRow>, tableOid: Oid, operation: Option<string>): (r: OperationVerdict)
    ensures r.compatible <==> operation.Some?
    ensures r.legacyWarning <==> operation.Some? && EnsureLegacyBehavior(sys, rows, tableOid)
  {
    match operation
    case None => OperationVerdict(false, false)
    case Some(op) =>
      var warned := EnsureLegacyBehavior(sys, rows, tableOid);
      var ok :=
        if op == "INSERT" then ValidateInsertCompatibility(rows, tableOid)
        else if op == "UPDATE" then ValidateUpdateCompatibility(rows, tableOid)
        else if op == "DELETE" then ValidateDeleteCompatibility(rows, tableOid)
        else if op == "SELECT" then ValidateSelectCompatibility(rows, tableOid)
        else true;
      OperationVerdict(ok, warned)
  }

  /**
   * Whether the host's `table_open` accepts a relation kind: it raises
   * ERROR for an index, a partitioned index and a composite type.
   */
  predicate TableOpenable(relkind: char) {
    relkind != RELKIND_INDEX && relkind != RELKIND_PARTITIONED_INDEX && relkind != RELKIND_COMPOSITE_TYPE
  }

  /** `table_open` on a relation with a pg_class row: its descriptor, or `None` for a refused kind. */
  function TableOpen(sys: SystemCatalogs, tableOid: Oid): (rel: Option<RelationData>)
    requires tableOid in sys.pgClass
    ensures rel.None? <==> !TableOpenable(sys.pgClass[tableOid].relkind)
    ensures rel.Some? ==> rel.value.relid == tableOid && rel.value.natts == sys.pgClass[tableOid].relnatts
  {
    if TableOpenable(sys.pgClass[tableOid].relkind) then
      Some(RelationData(tableOid, sys.pgClass[tableOid].relnatts, sys.pgClass[tableOid].relname))
    else None
  }

  /**
   * The PG_TRY block of `migrate_existing_table` on an opened relation:
   * add when asked and absent, remove when asked and present, otherwise a
   * WARNING; an ERROR inside add or remove is caught and re-raised as the
   * migration's own ERROR, and the transaction rolls the catalog back.
   */
  function MigrateOpened(rows: seq<ImplicitColumnRow>, rel: RelationData, addImplicitTime: bool): (m: Mutation)
    ensures m.outcome.Failed? ==> m.rows == rows && !m.invalidate
    ensures rel.relid != InvalidOid ==> !m.outcome.Failed?
    ensures addImplicitTime && HasImplicitTime(rows, rel.relid) ==> m == Mutation(rows, Warned(TimeColumnAlreadyPresent), false)
    ensures !addImplicitTime && !HasImplicitTime(rows, rel.relid) ==> m == Mutation(rows, Warned(TimeColumnMissing), false)
  {
    var inner :=
      if addImplicitTime then
        if !HasImplicitTime(rows, rel.relid) then AddSpec(rows, Some(rel))
        else Mutation(rows, Warned(TimeColumnAlreadyPresent), false)
      else
        if HasImplicitTime(rows, rel.relid) then RemoveSpec(rows, Some(rel))
        else Mutation(rows, Warned(TimeColumnMissing), false);
    if inner.outcome.Failed? then Mutation(rows, Failed(MigrationFailed), false) else inner
  }

  /** The guard passes the relation and `table_open` accepts it, so the PG_TRY block runs. */
  predicate MigrationReachesTry(sys: SystemCatalogs, tableOid: Oid) {
    CheckBackwardCompatibility(sys, tableOid) && TableOpenable(sys.pgClass[tableOid].relkind)
  }

  /** Everything after the guard: `table_open`, then the PG_TRY block. */
  function MigrateAfterGuard(sys: SystemCatalogs, rows: seq<ImplicitColumnRow>, tableOid: Oid, addImplicitTime: bool): Mutation
    requires tableOid in sys.pgClass
  {
    match TableOpen(sys, tableOid)
    case None => Mutation(rows, Failed(WrongObjectType), false)
    case Some(rel) => MigrateOpened(rows, rel, addImplicitTime)
  }

  /**
   * `migrate_existing_table` as written: ERROR before anything is opened
   * when the compatibility check fails, ERROR from `table_open` for a
   * kind it refuses, otherwise the PG_TRY block on the opened relation.
   * It fails exactly when the PG_TRY block is not reached, and a failure
   * changes nothing.
   */
  function MigrateSpec(sys: SystemCatalogs, rows: seq<ImplicitColumnRow>, tableOid: Oid, addImplicitTime: bool): (m: Mutation)
    ensures m.outcome.Failed? <==> !MigrationReachesTry(sys, tableOid)
    ensures m.outcome.Failed? ==> m.rows == rows && !m.invalidate
  {
    if !CheckBackwardCompatibility(sys, tableOid) then Mutation(rows, Failed(IncompatibleTable), false)
    else MigrateAfterGuard(sys, rows, tableOid, addImplicitTime)
  }

  /**
   * Which ERROR a failed migration raises: the guard's for an invalid or
   * missing table, `table_open`'s for a kind it refuses; the PG_CATCH
   * branch is never taken.
   */
  lemma MigrateFailureKinds(sys: SystemCatalogs, rows: seq<ImplicitColumnRow>, tableOid: Oid, addImplicitTime: bool)
    ensures !CheckBackwardCompatibility(sys, tableOid) ==>
      MigrateSpec(sys, rows, tableOid, addImplicitTime) == Mutation(rows, Failed(IncompatibleTable), false)
    ensures CheckBackwardCompatibility(sys, tableOid) && !TableOpenable(sys.pgClass[tableOid].relkind) ==>
      MigrateSpec(sys, rows, tableOid, addImplicitTime) == Mutation(rows, Failed(WrongObjectType), false)
    ensures MigrateSpec(sys, rows, tableOid, addImplicitTime).outcome != Failed(MigrationFailed)
  {
  }

  /**
   * Migrating with add leaves a table that `table_open` accepts with
   * exactly one time row, however it started.
   */
  lemma MigrateAddLeavesOneTimeRow(sys: SystemCatalogs, rows: seq<ImplicitColumnRow>, tableOid: Oid)
    requires KeysUnique(rows)
    requires CheckBackwardCompatibility(sys, tableOid)
    ensures TableOpenable(sys.pgClass[tableOid].relkind) ==>
      && !MigrateSpec(sys, rows, tableOid, true).outcome.Failed?
      && HasImplicitTime(MigrateSpec(sys, rows, tableOid, true).rows, tableOid)
      && CountTimeRows(MigrateSpec(sys, rows, tableOid, true).rows, tableOid) == 1
  {
    if TableOpenable(sys.pgClass[tableOid].relkind) {
      var rel := TableOpen(sys, tableOid).value;
      if HasImplicitTime(rows, tableOid) {
        CountTimeRowsUnique(rows, tableOid);
      } else {
        AddInsertsTimeRow(rows, rel);
      }
    }
  }

  /**
   * Migrating with remove leaves a table that `table_open` accepts with
   * no time row, however it started.
   */
  lemma MigrateRemoveLeavesNoTimeRow(sys: SystemCatalogs, rows: seq<ImplicitColumnRow>, tableOid: Oid)
    requires CheckBackwardCompatibility(sys, tableOid)
    ensures TableOpenable(sys.pgClass[tableOid].relkind) ==>
      && !MigrateSpec(sys, rows, tableOid, false).outcome.Failed?
      && !HasTimeRow(MigrateSpec(sys, rows, tableOid, false).rows, tableOid)
      && CountTimeRows(MigrateSpec(sys, rows, tableOid, false).rows, tableOid) == 0
  {
    if TableOpenable(sys.pgClass[tableOid].relkind) {
      var rel := TableOpen(sys, tableOid).value;
      var s := MigrateSpec(sys, rows, tableOid, false).rows;
      if HasImplicitTime(rows, tableOid) {
        RemoveDeletesTimeRows(rows, rel);
      }
      NoTimeRowCountsZero(s, tableOid);
    }
  }

  /** A table without a time row counts none. */
  lemma {:induction false} NoTimeRowCountsZero(rows: seq<ImplicitColumnRow>, tableOid: Oid)
    requires !HasTimeRow(rows, tableOid)
    ensures CountTimeRows(rows, tableOid) == 0
  {
    if rows != [] {
      HasTimeRowSnoc(rows, tableOid);
      NoTimeRowCountsZero(rows[..|rows| - 1], tableOid);
    }
  }

  /** Each direction of the migration is idempotent. */
  lemma MigrateIdempotent(sys: SystemCatalogs, rows: seq<ImplicitColumnRow>, tableOid: Oid, addImplicitTime: bool)
    ensures var once := MigrateSpec(sys, rows, tableOid, addImplicitTime).rows;
      MigrateSpec(sys, once, tableOid, addImplicitTime).rows == once
  {
    if MigrationReachesTry(sys, tableOid) {
      var rel := TableOpen(sys, tableOid).value;
      if addImplicitTime {
        if !HasImplicitTime(rows, tableOid) {
          var s := AddSpec(rows, Some(rel)).rows;
          assert IsTimeRowOf(s[|rows|], tableOid);
        }
      } else if HasImplicitTime(rows, tableOid) {
        RemoveDeletesTimeRows(rows, rel);
      }
    }
  }

  /** Migration touches only the migrated table's time row. */
  lemma MigrateLeavesOtherRowsAlone(sys: SystemCatalogs, rows: seq<ImplicitColumnRow>, tableOid: Oid, addImplicitTime: bool)
    ensures forall r | !IsTimeRowOf(r, tableOid) ::
      r in MigrateSpec(sys, rows, tableOid, addImplicitTime).rows <==> r in rows
  {
    if MigrationReachesTry(sys, tableOid) && !addImplicitTime && HasImplicitTime(rows, tableOid) {
      RemoveDeletesTimeRows(rows, TableOpen(sys, tableOid).value);
    }
  }

  /** Migration keeps the unique index satisfied. */
  lemma MigratePreservesUnique(sys: SystemCatalogs, rows: seq<ImplicitColumnRow>, tableOid: Oid, addImplicitTime: bool)
    requires KeysUnique(rows)
    ensures KeysUnique(MigrateSpec(sys, rows, tableOid, addImplicitTime).rows)
  {
    if MigrationReachesTry(sys, tableOid) {
      var rel := TableOpen(sys, tableOid).value;
      AddPreservesUnique(rows, Some(rel));
      RemovePreservesUnique(rows, Some(rel));
    }
  }

  /**
   * Whether implicit columns belong on the relation, as the guard's
   * comments and the feature's design say: an existing ordinary or
   * partitioned table that is not a system table.
   */
  predicate SupportsImplicitColumns(sys: SystemCatalogs, tableOid: Oid) {
    && tableOid != InvalidOid
    && tableOid in sys.pgClass
    && (sys.pgClass[tableOid].relkind == RELKIND_RELATION ||
        sys.pgClass[tableOid].relkind == RELKIND_PARTITIONED_TABLE)
    && !IsSystemTable(sys, tableOid)
  }

  /**
   * As written, migration attaches the implicit time column to a relation
   * that `table_open` accepts but that should not carry one: a view, a
   * sequence, a materialized view, a foreign table or a system table.
   */
  lemma MigrateAttachesToUnsupportedRelation(sys: SystemCatalogs, rows: seq<ImplicitColumnRow>, tableOid: Oid)
    requires tableOid != InvalidOid && tableOid in sys.pgClass
    requires TableOpenable(sys.pgClass[tableOid].relkind)
    requires !SupportsImplicitColumns(sys, tableOid)
    requires !HasImplicitTime(rows, tableOid)
    ensures MigrateSpec(sys, rows, tableOid, true).outcome == Done
    ensures HasImplicitTime(MigrateSpec(sys, rows, tableOid, true).rows, tableOid)
  {
    var s := MigrateSpec(sys, rows, tableOid, true).rows;
    assert IsTimeRowOf(s[|rows|], tableOid);
  }

  /** A view with no implicit column: the smallest input that shows the defect. */
  lemma MigrateAttachesToView()
    ensures var sys := SystemCatalogs(map[16384 := ClassRow("v", 'v', 'p', 1, false, false)], map[]);
      MigrateSpec(sys, [], 16384, true) ==
        Mutation([ImplicitColumnRow(16384, ImplicitTimeColumnName, 2, TIMESTAMPOID, false)], Done, true)
  {
    assert !HasTimeRow([], 16384);
  }

  /**
   * Migration as the guard evidently intends it: a relation that passes
   * the check but is neither an ordinary nor a partitioned user table is
   * refused with FEATURE_NOT_SUPPORTED instead of being migrated.
   */
  function MigrateSupportedSpec(sys: SystemCatalogs, rows: seq<ImplicitColumnRow>, tableOid: Oid, addImplicitTime: bool)
    : (m: Mutation)
    ensures !SupportsImplicitColumns(sys, tableOid) ==> m.rows == rows && !m.invalidate && m.outcome.Failed?
    ensures SupportsImplicitColumns(sys, tableOid) ==> !m.outcome.Failed?
  {
    if !CheckBackwardCompatibility(sys, tableOid) then Mutation(rows, Failed(IncompatibleTable), false)
    else if !SupportsImplicitColumns(sys, tableOid) then Mutation(rows, Failed(FeatureNotSupported), false)
    else MigrateAfterGuard(sys, rows, tableOid, addImplicitTime)
  }

  /**
   * The corrected migration gives a relation a time row only when it is
   * an ordinary or partitioned user table, and leaves every other
   * relation's catalog rows exactly as they were.
   */
  lemma MigrateSupportedOnlyUserTables(sys: SystemCatalogs, rows: seq<ImplicitColumnRow>, tableOid: Oid, addImplicitTime: bool)
    ensures !SupportsImplicitColumns(sys, tableOid) ==>
      MigrateSupportedSpec(sys, rows, tableOid, addImplicitTime).rows == rows
    ensures (!HasImplicitTime(rows, tableOid) &&
             HasImplicitTime(MigrateSupportedSpec(sys, rows, tableOid, addImplicitTime).rows, tableOid)) ==>
      SupportsImplicitColumns(sys, tableOid) && addImplicitTime
  {
    if SupportsImplicitColumns(sys, tableOid) && !addImplicitTime && HasImplicitTime(rows, tableOid) {
      RemoveDeletesTimeRows(rows, TableOpen(sys, tableOid).value);
    }
  }

  /**
   * On a supported table, and on a failed check, the corrected migration
   * is the migration as written; elsewhere it refuses.
   */
  lemma MigrateSupportedAgrees(sys: SystemCatalogs, rows: seq<ImplicitColumnRow>, tableOid: Oid, addImplicitTime: bool)
    ensures (SupportsImplicitColumns(sys, tableOid) || !CheckBackwardCompatibility(sys, tableOid)) ==>
      MigrateSupportedSpec(sys, rows, tableOid, addImplicitTime) == MigrateSpec(sys, rows, tableOid, addImplicitTime)
    ensures (!SupportsImplicitColumns(sys, tableOid) && CheckBackwardCompatibility(sys, tableOid)) ==>
      MigrateSupportedSpec(sys, rows, tableOid, addImplicitTime) == Mutation(rows, Failed(FeatureNotSupported), false)
  {
  }

  /**
   * `migrate_existing_table` on the catalog, with the relation-kind
   * refusal of the corrected migration: the existence test picks the
   * branch, and add or remove update the catalog in place.
   */
  method MigrateExistingTable(catalog: ImplicitColumnsCatalog, sys: SystemCatalogs, tableOid: Oid, addImplicitTime: bool)
    returns (outcome: Outcome)
    requires catalog.Valid()
    modifies catalog
    ensures catalog.Valid()
    ensures catalog.rows == MigrateSupportedSpec(sys, old(catalog.rows), tableOid, addImplicitTime).rows
    ensures outcome == MigrateSupportedSpec(sys, old(catalog.rows), tableOid, addImplicitTime).outcome
    ensures MigrateSupportedSpec(sys, old(catalog.rows), tableOid, addImplicitTime).invalidate ==>
      catalog.invalidations == old(catalog.invalidations) + [tableOid]
    ensures !MigrateSupportedSpec(sys, old(catalog.rows), tableOid, addImplicitTime).invalidate ==>
      catalog.invalidations == old(catalog.invalidations)
  {
    if !CheckBackwardCompatibility(sys, tableOid) {
      return Failed(IncompatibleTable);
    }
    if !SupportsImplicitColumns(sys, tableOid) {
      return Failed(FeatureNotSupported);
    }
    var handle := TableOpen(sys, tableOid);
    if handle.None? {
      return Failed(WrongObjectType);
    }
    var rel := handle.value;
    var has := catalog.TableHasImplicitTime(tableOid);
    var inner: Outcome;
    if addImplicitTime {
      if !has {
        inner := catalog.AddImplicitTimeColumn(Some(rel));
      } else {
        inner := Warned(TimeColumnAlreadyPresent);
      }
    } else {
      if has {
        inner := catalog.RemoveImplicitTimeColumn(Some(rel));
      } else {
        inner := Warned(TimeColumnMissing);
      }
    }
    outcome := if inner.Failed? then Failed(MigrationFailed) else inner;
  }
}
