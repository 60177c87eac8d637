# Implicit time column: a Dafny model

This project models the implicit-time-column subsystem of a PostgreSQL fork. The subsystem has three parts:

- **The implicit-column catalog** (`pg_implicit_columns`). It holds one row `(ic_relid, ic_attname, ic_attnum, ic_atttypid, ic_visible)` per table and implicit column. A unique index on `(ic_relid, ic_attname)` keys it.
  - It answers whether a table has the implicit `time` column and at which attribute number.
  - It adds and removes that column's row, and assembles a per-table snapshot (`TableImplicitInfo`).
  - It truncates the clock reading to whole seconds.
- **The compatibility guard.** This is decision logic over the relation's `pg_class` and `pg_attribute` rows: the relation kind, the system flag, the persistence and a possible user column named `time`. `migrate_existing_table` puts that guard in front of add and remove.
- **The error-context stack.** It is a fixed array of ten context strings with a depth counter, pushed and popped in place. The generic error report falls back to a default primary message.

## Layout

- `pg_types.dfy` (`PgTypes`): the host-engine vocabulary.
  - OIDs, the 16- and 64-bit integers, and the type OIDs.
  - The relation descriptor handed to add and remove.
  - How an operation ends: done, WARNING or ERROR.
- `implicit_columns_defs.dfy` (`ImplicitColumnsDefs`): the header's records.
  - The catalog row, `ImplicitColumn` and `TableImplicitInfo`.
  - The unique index as the predicate `KeysUnique`.
  - The snapshot's consistency as `WellFormedInfo`.
- `implicit_columns.dfy` (`ImplicitColumns`): the catalog.
  - The specification functions over the sequence of rows, including `AddSpec` and `RemoveSpec`.
  - Lemmas about them.
  - The class `ImplicitColumnsCatalog`. Its methods run the source's scan, insert and delete loops on the rows in place and are proved against those functions. Relcache invalidations are recorded as a sequence of OIDs.
- `implicit_timestamp.dfy` (`ImplicitTimestamp`): whole-second truncation, using C's division, which rounds toward zero.
- `implicit_compat.dfy` (`ImplicitCompat`): the compatibility guard and the migration, both as written and as corrected (see Findings).
- `implicit_time_error.dfy` (`ImplicitTimeError`): the context stack.
  - As a value (`ContextStack`, `PushContext`, `PopContext`).
  - As the class `ErrorContextStack`, over an `array` of ten slots, proved against those functions.
  - The default-message choice of `implicit_time_ereport`.
- `exec_scan.dfy` (`ExecScanHook`): the executor's `ExecSupportsImplicitColumns` question.

## Where the feature's design and the code disagree (the model follows the code)

- The design says the added row stores the time-with-zone type. The code stores `TIMESTAMPOID`, i.e. `timestamp` (`pg_implicit_columns.c:243`). The name-collision check also compares against `TIMESTAMPOID` (`pg_implicit_compat.c:149`).
- The design says the feature never attaches to views, other non-ordinary relations or system catalogs, and that adding it to a view is a feature-not-supported error. In the code, `check_backward_compatibility` returns true for every non-ordinary relation and for every catalog table, and `migrate_existing_table` then adds the row to each such relation that `table_open` opens (first Findings row). On an ordinary user table the code as written does not return at all: its system test reads through a NULL tuple (second Findings row). `MigrateSpec` models the code as written except that its system test is the corrected `IsSystemTable`; with that test every relation with a `pg_class` row passes the guard. The design does allow partitioned tables (with an advisory performance caveat), so the corrected migration accepts them as well as ordinary tables.
- `get_table_implicit_info` takes the attribute number of the last `time` row its scan meets. `get_implicit_time_attnum` takes the first. Under the unique index there is at most one such row, so the two agree. `GetTableImplicitInfo` states this agreement under `KeysUnique`.

## Model

| member | source | states |
|---|---|---|
| ImplicitColumns.FindTimeRow | src/backend/catalog/pg_implicit_columns.c:154-159 | the index lookup returns no row iff the table has no time row; otherwise it returns the position of the first time row |
| ImplicitColumns.GetImplicitTimeAttnum | src/backend/catalog/pg_implicit_columns.c:120-169 | InvalidAttrNumber for an invalid OID or a table without the time row; otherwise the ic_attnum of the time row the lookup meets first |
| ImplicitColumns.TimeAttnumOfUniqueRow | src/include/catalog/pg_implicit_columns.h:47 | under the unique index, the lookup returns the attribute number of the table's time row, whichever position it holds |
| ImplicitColumns.ValidateImplicitColumnType | src/backend/catalog/pg_implicit_columns.c:355-360 | accepts exactly timestamp and timestamptz |
| ImplicitColumns.CreateImplicitColumn | src/backend/catalog/pg_implicit_columns.c:459-475 | no descriptor for a NULL name; otherwise an active descriptor carrying the given name, type, attribute number and the clock reading |
| ImplicitColumns.RowsOfTableContents | src/backend/catalog/pg_implicit_columns.c:390-401 | the scan keyed on ic_relid meets exactly the catalog rows of that table |
| ImplicitColumns.SnapshotWellFormed | src/include/catalog/pg_implicit_columns.h:64-71 | the snapshot built from a table's rows counts its list, and reports the time column and its attribute number, or the sentinel when there is none |
| ImplicitColumns.WithoutTimeRowsContents | src/backend/catalog/pg_implicit_columns.c:308-312 | the delete loop keeps every row except the table's time rows; it shortens the catalog iff it found one |
| ImplicitColumns.WithoutTimeRowsIdentity | src/backend/catalog/pg_implicit_columns.c:308-312 | the delete loop changes nothing when the table has no time row |
| ImplicitColumns.WithoutTimeRowsUnique | src/include/catalog/pg_implicit_columns.h:47 | deleting rows keeps (ic_relid, ic_attname) unique |
| ImplicitColumns.CountTimeRowsUnique | src/include/catalog/pg_implicit_columns.h:47 | under the unique index a table has exactly one time row if it has any, otherwise none |
| ImplicitColumns.AddSpec | src/backend/catalog/pg_implicit_columns.c:204-259 | add fails on a NULL relation, or with a unique-index ERROR when a relation with the invalid OID meets an existing time row of that OID; it never fails for a valid OID, and a failure changes nothing; it only ever appends, at most one row, and it invalidates exactly when it appends; the appended row is the table's hidden `time` row of type timestamp at natts+1 |
| ImplicitColumns.RemoveSpec | src/backend/catalog/pg_implicit_columns.c:266-330 | remove fails iff the relation is NULL; when it fails or finds no column it changes nothing; it only ever deletes rows, and it invalidates exactly when it deleted one |
| ImplicitColumns.RemoveNeverReportsNoRecord | src/backend/catalog/pg_implicit_columns.c:283-329 | the "no record found" WARNING after the delete loop is never raised: a table that passed the existence test always loses a row and the outcome is success |
| ImplicitColumns.InvalidRelationChangesNothing | src/backend/catalog/pg_implicit_columns.c:215-218 | add, and likewise remove (lines 277-278), on a NULL relation raise ERROR and leave the catalog and the relcache alone |
| ImplicitColumns.AddPreservesUnique | src/include/catalog/pg_implicit_columns.h:47 | add keeps the unique index satisfied |
| ImplicitColumns.AddInsertsTimeRow | src/backend/catalog/pg_implicit_columns.c:232-255 | on a table without the column, add appends exactly (relid, "time", natts+1, timestamp, hidden) and invalidates; afterwards the table has the column, the lookup gives natts+1, there is one time row, and its type passes validation |
| ImplicitColumns.AddWhenPresentIsNoOp | src/backend/catalog/pg_implicit_columns.c:224-229 | add on a table that already has the column changes nothing and does not invalidate |
| ImplicitColumns.AddIdempotent | src/backend/catalog/pg_implicit_columns.c:224-248 | a second add leaves the catalog as the first left it |
| ImplicitColumns.AddTwiceYieldsOneRow | src/backend/catalog/pg_implicit_columns.c:224-248 | adding twice to a valid table leaves exactly one time row |
| ImplicitColumns.RemoveDeletesTimeRows | src/backend/catalog/pg_implicit_columns.c:308-329 | remove leaves no time row for the table, keeps every other row, and invalidates exactly when it deleted something |
| ImplicitColumns.RemovePreservesUnique | src/backend/catalog/pg_implicit_columns.c:308-312 | remove keeps the unique index satisfied |
| ImplicitColumns.RemoveIdempotent | src/backend/catalog/pg_implicit_columns.c:283-288 | a second remove only warns that the column is missing, and changes nothing |
| ImplicitColumns.RemoveUndoesAdd | src/backend/catalog/pg_implicit_columns.c:232-312 | removing right after adding to a table without the column restores the catalog |
| ImplicitColumns.ImplicitColumnsCatalog.TableHasImplicitTime | src/backend/catalog/pg_implicit_columns.c:62-112 | the search loop answers false for an invalid OID; otherwise it answers whether some row of the table is named "time" |
| ImplicitColumns.ImplicitColumnsCatalog.IsImplicitColumn | src/backend/catalog/pg_implicit_columns.c:337-348 | true iff the name is "time" and the table has the implicit time column; false for a NULL name |
| ImplicitColumns.ImplicitColumnsCatalog.AddImplicitTimeColumn | src/backend/catalog/pg_implicit_columns.c:204-259 | the catalog afterwards is AddSpec's, the outcome is AddSpec's, and exactly one invalidation of the table is sent iff a row was inserted; the unique index still holds |
| ImplicitColumns.ImplicitColumnsCatalog.RemoveImplicitTimeColumn | src/backend/catalog/pg_implicit_columns.c:266-330 | the delete loop leaves RemoveSpec's catalog and outcome, and sends one invalidation iff it found a row; the unique index still holds |
| ImplicitColumns.ImplicitColumnsCatalog.GetTableImplicitInfo | src/backend/catalog/pg_implicit_columns.c:366-428 | NULL iff the OID is invalid; otherwise a well-formed snapshot listing one active descriptor per row of the table in scan order, with has_implicit_time as the existence test answers and, under the unique index, time_attnum as the lookup answers |
| ImplicitTimestamp.CDivSeconds | src/backend/catalog/pg_implicit_columns.c:194 | C's quotient by 1,000,000 rounds toward zero: the product lies between zero and the dividend, within one divisor of it |
| ImplicitTimestamp.TruncateToSeconds | src/backend/catalog/pg_implicit_columns.c:194 | the result is a whole number of seconds, no farther from zero than the reading, and less than one second away from it |
| ImplicitTimestamp.TruncateWholeSeconds | src/backend/catalog/pg_implicit_columns.c:194 | a whole number of seconds is left unchanged |
| ImplicitTimestamp.TruncateIdempotent | src/backend/catalog/pg_implicit_columns.c:194 | truncating twice equals truncating once |
| ImplicitTimestamp.TruncateMonotonic | src/backend/catalog/pg_implicit_columns.c:194 | a later reading never truncates to an earlier value |
| ImplicitCompat.IsTemporaryTable | src/backend/catalog/pg_implicit_compat.c:405-421 | temporary iff the table's pg_class row exists and its persistence is 't'; a missing row counts as not temporary |
| ImplicitCompat.TemporaryTablesPassTheGuard | src/backend/catalog/pg_implicit_compat.c:93-100 | a temporary table passes the guard, and an ordinary temporary user table reaches the name check flagged temporary rather than being refused |
| ImplicitCompat.CheckColumnNameConflicts | src/backend/catalog/pg_implicit_compat.c:133-157 | warns iff pg_attribute has a live column named "time" for the table whose type is not timestamp; it never fails |
| ImplicitCompat.NameCheckSparesOnlyTimestamp | src/backend/catalog/pg_implicit_compat.c:143-152 | a user "time" column of type timestamp, or a dropped one, draws no warning; a live timestamptz one is warned about even though timestamptz is a valid implicit-column type |
| ImplicitCompat.IsSystemTableAsWritten | src/backend/catalog/pg_implicit_compat.c:394-398 | the system test as written passes no pg_class tuple; whenever the host answers, the answer is "system" |
| ImplicitCompat.SystemTestReadsNullTuple | src/backend/catalog/pg_implicit_compat.c:394-398 | for a relation whose OID is not a catalog OID, the system test as written has no answer: the host's toast test reads the missing tuple |
| ImplicitCompat.IsSystemTable | src/backend/catalog/pg_implicit_compat.c:394-398 | a relation is a system table iff its OID is a catalog OID or its row lies in a toast namespace; it agrees with the test as written wherever that answers |
| ImplicitCompat.CompatibilityVerdict | src/backend/catalog/pg_implicit_compat.c:52-105 | each branch is taken exactly on its condition, in the code's order: invalid OID, missing pg_class row, relkind other than 'r', system table, then an ordinary table with its temporary flag and name check |
| ImplicitCompat.CheckBackwardCompatibility | src/backend/catalog/pg_implicit_compat.c:52-105 | false iff the OID is invalid or has no pg_class row; every existing relation passes |
| ImplicitCompat.CompatibilityWarnsOfConflict | src/backend/catalog/pg_implicit_compat.c:99-100 | the guard warns of a name collision only for an existing, ordinary, non-system table whose name check warns |
| ImplicitCompat.ShortCircuitIgnoresColumns | src/backend/catalog/pg_implicit_compat.c:77-90 | for a non-ordinary or system relation the verdict ignores persistence and columns, and no collision is reported |
| ImplicitCompat.EnsureLegacyBehavior | src/backend/catalog/pg_implicit_compat.c:113-126 | it warns only for a table without the implicit column whose name check warns |
| ImplicitCompat.ValidateInsertCompatibility | src/backend/catalog/pg_implicit_compat.c:278-288 | both branches accept |
| ImplicitCompat.ValidateUpdateCompatibility | src/backend/catalog/pg_implicit_compat.c:295-305 | both branches accept |
| ImplicitCompat.ValidateDeleteCompatibility | src/backend/catalog/pg_implicit_compat.c:312-318 | accepts |
| ImplicitCompat.ValidateSelectCompatibility | src/backend/catalog/pg_implicit_compat.c:325-335 | both branches accept |
| ImplicitCompat.ValidateOperationCompatibility | src/backend/catalog/pg_implicit_compat.c:237-271 | false iff the operation is NULL, unrecognised names included; the legacy check runs, and may warn, only for a non-NULL operation |
| ImplicitCompat.TableOpen | src/backend/catalog/pg_implicit_compat.c:179 | `table_open` refuses exactly an index, a partitioned index and a composite type; otherwise the descriptor carries the table's OID and its pg_class attribute count |
| ImplicitCompat.MigrateOpened | src/backend/catalog/pg_implicit_compat.c:181-223 | the PG_TRY block never fails for a valid OID, and a failure would change nothing; asking to add a present column or remove a missing one only warns and changes nothing |
| ImplicitCompat.MigrateSpec | src/backend/catalog/pg_implicit_compat.c:165-229 | migration raises ERROR iff the guard fails or `table_open` refuses the kind, and then changes nothing |
| ImplicitCompat.MigrateFailureKinds | src/backend/catalog/pg_implicit_compat.c:172-223 | a failed guard gives its own ERROR, a refused kind gives `table_open`'s, and the PG_CATCH ERROR is never raised |
| ImplicitCompat.MigrateAddLeavesOneTimeRow | src/backend/catalog/pg_implicit_compat.c:183-199 | for a relation the guard passes and `table_open` accepts, migrating with add succeeds and leaves the column with exactly one time row, whether or not it was there before |
| ImplicitCompat.MigrateRemoveLeavesNoTimeRow | src/backend/catalog/pg_implicit_compat.c:200-216 | for a relation the guard passes and `table_open` accepts, migrating with remove succeeds and leaves no time row, whether or not there was one before |
| ImplicitCompat.MigrateIdempotent | src/backend/catalog/pg_implicit_compat.c:183-216 | migrating twice in the same direction leaves the catalog as once |
| ImplicitCompat.MigrateLeavesOtherRowsAlone | src/backend/catalog/pg_implicit_compat.c:183-216 | migration neither adds nor removes any row other than the table's time row |
| ImplicitCompat.MigratePreservesUnique | src/backend/catalog/pg_implicit_compat.c:183-216 | migration keeps the unique index satisfied |
| ImplicitCompat.MigrateAttachesToUnsupportedRelation | src/backend/catalog/pg_implicit_compat.c:172-191 | as written, migrating with add succeeds and gives the implicit time column to any relation `table_open` accepts that is not an ordinary or partitioned user table: a view, a sequence, a materialized view, a foreign table or a system table |
| ImplicitCompat.MigrateAttachesToView | src/backend/catalog/pg_implicit_compat.c:172-191 | as written, migrating a one-column view gives it the time row (oid, "time", 2, timestamp, hidden) |
| ImplicitCompat.MigrateSupportedSpec | src/backend/catalog/pg_implicit_compat.c:76-90 | the corrected migration refuses, with no change, every relation that is not an ordinary or partitioned user table, and does not fail on one that is |
| ImplicitCompat.MigrateSupportedOnlyUserTables | src/backend/catalog/pg_implicit_compat.c:76-90 | under the corrected migration, only an ordinary or partitioned user table migrated with add gains the time column; other relations keep their rows |
| ImplicitCompat.MigrateSupportedAgrees | src/backend/catalog/pg_implicit_compat.c:165-229 | the corrected migration equals the written one on ordinary and partitioned user tables and on a failed guard; elsewhere it is a FEATURE_NOT_SUPPORTED ERROR with no change |
| ImplicitCompat.MigrateExistingTable | src/backend/catalog/pg_implicit_compat.c:165-229 | on the catalog object, the rows, outcome and invalidations are those of the corrected migration; the unique index still holds |
| ImplicitTimeError.EmptyStack | src/backend/utils/error/implicit_time_error.c:26-31 | the initial stack satisfies the invariant with depth 0 |
| ImplicitTimeError.PushContext | src/backend/utils/error/implicit_time_error.c:224-239 | push keeps the slot count and the depth in [0, 10] and preserves the invariant; the depth grows by one exactly for a non-NULL context on a non-full stack |
| ImplicitTimeError.PopContext | src/backend/utils/error/implicit_time_error.c:245-257 | pop keeps the depth in [0, 10] and preserves the invariant; the depth drops by one unless it is already 0 |
| ImplicitTimeError.PushFullIsNoOp | src/backend/utils/error/implicit_time_error.c:227-231 | a push onto a full stack changes nothing |
| ImplicitTimeError.PushNullIsNoOp | src/backend/utils/error/implicit_time_error.c:233-238 | a push of NULL changes nothing |
| ImplicitTimeError.PushStoresContext | src/backend/utils/error/implicit_time_error.c:235-237 | a push with room stores the context at the old depth, increments the depth, and leaves every other slot unchanged |
| ImplicitTimeError.PopEmptyIsNoOp | src/backend/utils/error/implicit_time_error.c:248 | a pop on an empty stack changes nothing |
| ImplicitTimeError.PopClearsTop | src/backend/utils/error/implicit_time_error.c:245-257 | a pop of a non-empty stack decrements the depth, clears the slot it now names, and keeps every slot below it |
| ImplicitTimeError.PopAfterPush | src/backend/utils/error/implicit_time_error.c:224-257 | a pop right after a push of a context onto a stack with room restores the stack |
| ImplicitTimeError.RunKeepsInvariant | src/backend/utils/error/implicit_time_error.c:224-257 | any sequence of pushes and pops keeps the invariant and the depth within [0, 10] |
| ImplicitTimeError.ErrorContextStack.PushContextInPlace | src/backend/utils/error/implicit_time_error.c:224-239 | the array and counter end as PushContext says; the overflow warning is given iff the stack was full |
| ImplicitTimeError.ErrorContextStack.PopContextInPlace | src/backend/utils/error/implicit_time_error.c:245-257 | the array and counter end as PopContext says |
| ImplicitTimeError.ErrorContextStack.constructor | src/backend/utils/error/implicit_time_error.c:26-31 | the stack starts with every slot NULL and depth 0 |
| ImplicitTimeError.ImplicitTimeEreport | src/backend/utils/error/implicit_time_error.c:204-218 | the default primary message replaces a NULL one; detail, hint and context are attached only as given; level and code are passed through |
| ExecScanHook.ExecSupportsImplicitColumns | src/backend/executor/execScan.c:430-444 | false without a current relation; otherwise whether the relation's table has the implicit time column |

## Left out

- Locking (`AccessShareLock`, `RowExclusiveLock`, `AccessExclusiveLock`), concurrency between backends, and transaction rollback are not modelled. A failed migration is modelled as leaving the catalog as it was.
- Relcache invalidation is modelled only as a recorded OID, not as its effect on open relation descriptors.
- `elog` and `ereport`, and the `PG_TRY`/`PG_CATCH` plumbing, are not modelled. An ERROR is a `Failed` outcome and a WARNING is a `Warned` outcome. NOTICE and DEBUG messages are dropped.
- The `implicit_time_*_error` wrappers and the debug and warning loggers in `implicit_time_error.c` (lines 37-198 and 263-281) are not modelled. They only raise or log fixed text.
- The error location argument of `implicit_time_ereport` is not modelled.
- Memory management is not modelled: `palloc`, `pstrdup`, `pfree`, `free_table_implicit_info` and `free_implicit_column`.
- Acquiring the clock and converting `timestamptz` to `timestamp` are not modelled. The raw microsecond value is a parameter `now`. `get_table_implicit_info` stamps every descriptor in one snapshot with the same `now`.
- `get_compatibility_info` only formats a report string, so it is not modelled.
- The host's `IsSystemClass` is not part of this model. It is modelled as `IsCatalogRelationOid(relid) || IsToastClass(tuple)`, with both answers given as flags on the `pg_class` row (`isCatalogOid`, `inToastNamespace`). `CompatibilityVerdict` and everything built on it use the corrected test `IsSystemTable`, which passes the tuple (see Findings).
- The host's `table_open` is not part of this model. It is modelled as refusing an index, a partitioned index and a composite type with an ERROR (`WrongObjectType`), and as opening every other kind.
- The catalog's index scans are modelled as visiting the rows in catalog order.
- `NameData` truncation of column names to 63 bytes is not modelled.
- The generic executor scan loop, the EvalPlanQual recheck and `ExecScanWithImplicitColumns` are not modelled. The last returns its slot unchanged on every path.
- Tuple augmentation and `SELECT *` visibility filtering are not modelled, because no code implements them.
- The declaration-only headers `implicit_time_error.h` and `pg_implicit_compat.h` are not modelled.
- Attribute counts are bounded by the host's 1600-column limit, so `natts + 1` always fits the 16-bit `ic_attnum`.
- ImplicitColumns.ImplicitColumnsCatalog.GetTableImplicitInfo: ties `time_attnum` to the lookup only under the unique index. Without the index, the code reports the last time row the scan meets.
- ImplicitCompat.MigrateExistingTable: implements the corrected migration (see Findings). The migration as written is `MigrateSpec`.

## Findings

| source | as written | input that shows it | evidently intended | confidence | as-written member | corrected member |
|---|---|---|---|---|---|---|
| src/backend/catalog/pg_implicit_compat.c:172-191 | the guard passes every non-ordinary relation and every catalog table, so migrating with add inserts a time row for a view, a sequence, a materialized view, a foreign table or a system table | a view (relkind 'v', one attribute) without an implicit column, migrated with add, gains the row (oid, "time", 2, timestamp, hidden) and the outcome is success | only user tables take implicit columns (the guard's comment at line 76 and its log messages at lines 79 and 87, which skip non-ordinary tables and reject system tables; the design also admits partitioned tables); other relations are refused with FEATURE_NOT_SUPPORTED and the catalog is left unchanged | medium, not executed | ImplicitCompat.MigrateAttachesToView | ImplicitCompat.MigrateSupportedSpec |
| src/backend/catalog/pg_implicit_compat.c:394-398 | `is_system_table` calls `IsSystemClass(table_oid, NULL)`; the host's toast-namespace test reads the tuple it is given, so for any relation whose OID is not a catalog OID the call reads through a NULL pointer | any ordinary user table (relkind 'r', OID 16384) passes the earlier guard steps and reaches this call | look up the `pg_class` tuple and pass it, so a user table is answered "not a system table" | medium, depends on the host's `IsSystemClass`, not executed | ImplicitCompat.SystemTestReadsNullTuple | ImplicitCompat.IsSystemTable |
