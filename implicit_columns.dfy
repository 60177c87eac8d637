/**
 * The implicit-column catalog: the rows of pg_implicit_columns, the
 * lookups over them, and the add / remove operations that change them.
 *
 * The specification half is a set of functions over the sequence of rows
 * (`HasImplicitTime`, `GetImplicitTimeAttnum`, `AddSpec`, `RemoveSpec`)
 * with lemmas about them; the implementation half is the class
 * `ImplicitColumnsCatalog`, whose methods scan and rewrite the rows in
 * place and are proved against those functions.
 */
module ImplicitColumns {
  import opened PgTypes
  import opened ImplicitColumnsDefs

  /** `r` is the time row of table `tableOid`. */
  predicate IsTimeRowOf(r: ImplicitColumnRow, tableOid: Oid) {
    r.icRelid == tableOid && r.icAttname == ImplicitTimeColumnName
  }

  /** Some row is the time row of `tableOid`. */
  predicate HasTimeRow(rows: seq<ImplicitColumnRow>, tableOid: Oid) {
    exists i | 0 <= i < |rows| :: IsTimeRowOf(rows[i], tableOid)
  }

  /**
   * What `table_has_implicit_time` answers: an invalid OID never has the
   * column; otherwise the catalog holds its time row.
   */
  predicate HasImplicitTime(rows: seq<ImplicitColumnRow>, tableOid: Oid) {
    tableOid != InvalidOid && HasTimeRow(rows, tableOid)
  }

  /** Index of the first time row of `tableOid`, if any. */
  function FindTimeRow(rows: seq<ImplicitColumnRow>, tableOid: Oid): (k: Option<nat>)
    ensures k.None? <==> !HasTimeRow(rows, tableOid)
    ensures k.Some? ==> k.value < |rows| && IsTimeRowOf(rows[k.value], tableOid)
    ensures k.Some? ==> forall j | 0 <= j < k.value :: !IsTimeRowOf(rows[j], tableOid)
  {
    if rows == [] then None
    else if IsTimeRowOf(rows[0], tableOid) then Some(0)
    else
      match FindTimeRow(rows[1..], tableOid)
      case None =>
        assert forall i | 1 <= i < |rows| :: rows[i] == rows[1..][i - 1];
        None
      case Some(k) =>
        assert forall j | 1 <= j < k + 1 :: rows[j] == rows[1..][j - 1];
        Some(k + 1)
  }

  /**
   * `get_implicit_time_attnum`: the sentinel for an invalid OID or a table
   * without the column, otherwise the attribute number of the row the
   * (ic_relid, ic_attname) index lookup meets first.
   */
  function GetImplicitTimeAttnum(rows: seq<ImplicitColumnRow>, tableOid: Oid): (attnum: AttrNumber)
    ensures !HasImplicitTime(rows, tableOid) ==> attnum == InvalidAttrNumber
    ensures HasImplicitTime(rows, tableOid) ==>
      exists i | 0 <= i < |rows| ::
        && IsTimeRowOf(rows[i], tableOid)
        && attnum == rows[i].icAttnum
        && (forall j | 0 <= j < i :: !IsTimeRowOf(rows[j], tableOid))
  {
    if tableOid == InvalidOid then InvalidAttrNumber
    else
      match FindTimeRow(rows, tableOid)
      case None => InvalidAttrNumber
      case Some(k) => rows[k].icAttnum
  }

  /** Under the unique index the lookup returns THE time row's attribute number. */
  lemma TimeAttnumOfUniqueRow(rows: seq<ImplicitColumnRow>, tableOid: Oid, i: nat)
    requires KeysUnique(rows)
    requires tableOid != InvalidOid
    requires i < |rows| && IsTimeRowOf(rows[i], tableOid)
    ensures GetImplicitTimeAttnum(rows, tableOid) == rows[i].icAttnum
  {
  }

  /** `validate_implicit_column_type`: only the two time types are accepted. */
  function ValidateImplicitColumnType(typeOid: Oid): (ok: bool)
    ensures ok <==> typeOid in {TIMESTAMPOID, TIMESTAMPTZOID}
  {
    typeOid == TIMESTAMPOID || typeOid == TIMESTAMPTZOID
  }

  /**
   * `create_implicit_column`: nothing for a NULL name, otherwise an active
   * descriptor carrying the given name, type and attribute number, stamped
   * with the clock reading `now`.
   */
  function CreateImplicitColumn(name: Option<string>, typeOid: Oid, attnum: AttrNumber, now: Timestamp)
    : (col: Option<ImplicitColumn>)
    ensures col.None? <==> name.None?
    ensures col.Some? ==>
      && col.value.columnName == name.value
      && col.value.columnType == typeOid
      && col.value.attnum == attnum
      && col.value.isActive
      && col.value.createdTime == now
  {
    if name.None? then None
    else Some(ImplicitColumn(name.value, typeOid, attnum, true, now))
  }

  /** The descriptor a catalog row turns into inside a snapshot. */
  function ColumnOfRow(r: ImplicitColumnRow, now: Timestamp): ImplicitColumn {
    CreateImplicitColumn(Some(r.icAttname), r.icAtttypid, r.icAttnum, now).value
  }

  /** The rows whose ic_relid is `tableOid`, in catalog order. */
  function RowsOfTable(rows: seq<ImplicitColumnRow>, tableOid: Oid): (mine: seq<ImplicitColumnRow>)
    decreases |rows|
  {
    if rows == [] then []
    else
      var init := RowsOfTable(rows[..|rows| - 1], tableOid);
      if rows[|rows| - 1].icRelid == tableOid then init + [rows[|rows| - 1]] else init
  }

  /** The descriptors a snapshot lists for the rows `rs`, in order. */
  function Describe(rs: seq<ImplicitColumnRow>, now: Timestamp): (cols: seq<ImplicitColumn>)
    ensures |cols| == |rs|
    ensures forall k | 0 <= k < |rs| :: cols[k] == ColumnOfRow(rs[k], now)
    decreases |rs|
  {
    if rs == [] then []
    else Describe(rs[..|rs| - 1], now) + [ColumnOfRow(rs[|rs| - 1], now)]
  }

  /** A table's rows are exactly the catalog rows with its OID. */
  lemma {:induction false} RowsOfTableContents(rows: seq<ImplicitColumnRow>, tableOid: Oid)
    ensures forall r :: r in RowsOfTable(rows, tableOid) <==> r in rows && r.icRelid == tableOid
    decreases |rows|
  {
    if rows != [] {
      var init := rows[..|rows| - 1];
      RowsOfTableContents(init, tableOid);
      assert rows == init + [rows[|rows| - 1]];
    }
  }

  /** Every time row of the table shows up in its snapshot as a "time" descriptor with its attribute number. */
  lemma SnapshotListsTimeRow(rows: seq<ImplicitColumnRow>, tableOid: Oid, now: Timestamp, j: nat)
    returns (k: nat)
    requires j < |rows| && IsTimeRowOf(rows[j], tableOid)
    ensures k < |Describe(RowsOfTable(rows, tableOid), now)|
    ensures Describe(RowsOfTable(rows, tableOid), now)[k] == ColumnOfRow(rows[j], now)
  {
    var mine := RowsOfTable(rows, tableOid);
    RowsOfTableContents(rows, tableOid);
    assert rows[j] in mine;
    k :| 0 <= k < |mine| && mine[k] == rows[j];
  }

  /** A "time" descriptor in a table's snapshot comes from a time row of that table. */
  lemma SnapshotTimeColumnHasRow(rows: seq<ImplicitColumnRow>, tableOid: Oid, now: Timestamp, k: nat)
    requires k < |Describe(RowsOfTable(rows, tableOid), now)|
    requires Describe(RowsOfTable(rows, tableOid), now)[k].columnName == ImplicitTimeColumnName
    ensures HasTimeRow(rows, tableOid)
  {
    var mine := RowsOfTable(rows, tableOid);
    RowsOfTableContents(rows, tableOid);
    assert mine[k] in rows;
    var j :| 0 <= j < |rows| && rows[j] == mine[k];
    assert IsTimeRowOf(rows[j], tableOid);
  }

  /** One step of the snapshot loop: the next row joins the list if it belongs to the table. */
  lemma SnapshotStep(rows: seq<ImplicitColumnRow>, tableOid: Oid, now: Timestamp, i: nat)
    requires i < |rows|
    ensures Describe(RowsOfTable(rows[..i + 1], tableOid), now) ==
      Describe(RowsOfTable(rows[..i], tableOid), now) +
        (if rows[i].icRelid == tableOid then [ColumnOfRow(rows[i], now)] else [])
    ensures HasTimeRow(rows[..i + 1], tableOid) <==>
      HasTimeRow(rows[..i], tableOid) || IsTimeRowOf(rows[i], tableOid)
  {
    assert rows[..i + 1][..i] == rows[..i];
    HasTimeRowSnoc(rows[..i + 1], tableOid);
  }

  /**
   * A snapshot built from all of a table's rows, whose time fields come
   * from one of its time rows (or are the sentinel when it has none), is
   * well formed.
   */
  lemma SnapshotWellFormed(rows: seq<ImplicitColumnRow>, tableOid: Oid, now: Timestamp, has: bool, attnum: AttrNumber)
    requires has == HasTimeRow(rows, tableOid)
    requires has ==> exists j | 0 <= j < |rows| :: IsTimeRowOf(rows[j], tableOid) && attnum == rows[j].icAttnum
    requires !has ==> attnum == InvalidAttrNumber
    ensures var cols := Describe(RowsOfTable(rows, tableOid), now);
      WellFormedInfo(TableImplicitInfo(tableOid, has, attnum, cols, |cols|))
  {
    var cols := Describe(RowsOfTable(rows, tableOid), now);
    if has {
      var j :| 0 <= j < |rows| && IsTimeRowOf(rows[j], tableOid) && attnum == rows[j].icAttnum;
      var k := SnapshotListsTimeRow(rows, tableOid, now, j);
      assert cols[k].columnName == ImplicitTimeColumnName && cols[k].attnum == attnum;
    } else {
      forall k | 0 <= k < |cols|
        ensures cols[k].columnName != ImplicitTimeColumnName
      {
        if cols[k].columnName == ImplicitTimeColumnName {
          SnapshotTimeColumnHasRow(rows, tableOid, now, k);
        }
      }
    }
  }

  /** The catalog with every time row of `tableOid` deleted, other rows kept in order. */
  function WithoutTimeRows(rows: seq<ImplicitColumnRow>, tableOid: Oid): (kept: seq<ImplicitColumnRow>)
    decreases |rows|
  {
    if rows == [] then []
    else
      var init := WithoutTimeRows(rows[..|rows| - 1], tableOid);
      if IsTimeRowOf(rows[|rows| - 1], tableOid) then init else init + [rows[|rows| - 1]]
  }

  /** Number of time rows of `tableOid`. */
  function CountTimeRows(rows: seq<ImplicitColumnRow>, tableOid: Oid): nat
    decreases |rows|
  {
    if rows == [] then 0
    else CountTimeRows(rows[..|rows| - 1], tableOid) + (if IsTimeRowOf(rows[|rows| - 1], tableOid) then 1 else 0)
  }

  /** Stepping a prefix scan by one row. */
  lemma HasTimeRowSnoc(rows: seq<ImplicitColumnRow>, tableOid: Oid)
    requires rows != []
    ensures HasTimeRow(rows, tableOid) <==>
      HasTimeRow(rows[..|rows| - 1], tableOid) || IsTimeRowOf(rows[|rows| - 1], tableOid)
  {
    var init := rows[..|rows| - 1];
    if HasTimeRow(init, tableOid) {
      var i :| 0 <= i < |init| && IsTimeRowOf(init[i], tableOid);
      assert rows[i] == init[i];
    }
    if HasTimeRow(rows, tableOid) {
      var i :| 0 <= i < |rows| && IsTimeRowOf(rows[i], tableOid);
      if i < |init| { assert init[i] == rows[i]; }
    }
  }

  /**
   * Deleting the time rows keeps every other row, removes every time row,
   * and shortens the catalog exactly when there was a time row to delete.
   */
  lemma {:induction false} WithoutTimeRowsContents(rows: seq<ImplicitColumnRow>, tableOid: Oid)
    ensures forall r :: r in WithoutTimeRows(rows, tableOid) <==> r in rows && !IsTimeRowOf(r, tableOid)
    ensures |WithoutTimeRows(rows, tableOid)| <= |rows|
    ensures |WithoutTimeRows(rows, tableOid)| < |rows| <==> HasTimeRow(rows, tableOid)
    decreases |rows|
  {
    if rows != [] {
      var init := rows[..|rows| - 1];
      WithoutTimeRowsContents(init, tableOid);
      HasTimeRowSnoc(rows, tableOid);
      assert rows == init + [rows[|rows| - 1]];
    }
  }

  /** A catalog without time rows of `tableOid` is left as it is by the deletion. */
  lemma {:induction false} WithoutTimeRowsIdentity(rows: seq<ImplicitColumnRow>, tableOid: Oid)
    requires !HasTimeRow(rows, tableOid)
    ensures WithoutTimeRows(rows, tableOid) == rows
    decreases |rows|
  {
    if rows != [] {
      var init := rows[..|rows| - 1];
      HasTimeRowSnoc(rows, tableOid);
      WithoutTimeRowsIdentity(init, tableOid);
      assert rows == init + [rows[|rows| - 1]];
    }
  }

  /** Deleting rows keeps the unique index satisfied. */
  lemma {:induction false} WithoutTimeRowsUnique(rows: seq<ImplicitColumnRow>, tableOid: Oid)
    requires KeysUnique(rows)
    ensures KeysUnique(WithoutTimeRows(rows, tableOid))
    decreases |rows|
  {
    if rows != [] {
      var n := |rows| - 1;
      var init := rows[..n];
      var last := rows[n];
      assert KeysUnique(init) by {
        forall i, j | 0 <= i < j < |init|
          ensures init[i].icRelid != init[j].icRelid || init[i].icAttname != init[j].icAttname
        {
          assert init[i] == rows[i] && init[j] == rows[j];
        }
      }
      WithoutTimeRowsUnique(init, tableOid);
      WithoutTimeRowsContents(init, tableOid);
      var k := WithoutTimeRows(init, tableOid);
      if !IsTimeRowOf(last, tableOid) {
        var s := k + [last];
        forall i, j | 0 <= i < j < |s|
          ensures s[i].icRelid != s[j].icRelid || s[i].icAttname != s[j].icAttname
        {
          if j == |k| {
            assert s[i] in init;
            var m :| 0 <= m < |init| && init[m] == s[i];
            assert rows[m] == s[i] && rows[n] == s[j];
          } else {
            assert s[i] == k[i] && s[j] == k[j];
          }
        }
      }
    }
  }

  /** Under the unique index a table has at most one time row. */
  lemma {:induction false} CountTimeRowsUnique(rows: seq<ImplicitColumnRow>, tableOid: Oid)
    requires KeysUnique(rows)
    ensures CountTimeRows(rows, tableOid) == if HasTimeRow(rows, tableOid) then 1 else 0
    decreases |rows|
  {
    if rows != [] {
      var n := |rows| - 1;
      var init := rows[..n];
      assert KeysUnique(init) by {
        forall i, j | 0 <= i < j < |init|
          ensures init[i].icRelid != init[j].icRelid || init[i].icAttname != init[j].icAttname
        {
          assert init[i] == rows[i] && init[j] == rows[j];
        }
      }
      CountTimeRowsUnique(init, tableOid);
      HasTimeRowSnoc(rows, tableOid);
    }
  }

  /** The result of one catalog mutation: new rows, how it ended, whether the relcache is invalidated. */
  datatype Mutation = Mutation(rows: seq<ImplicitColumnRow>, outcome: Outcome, invalidate: bool)

  /** The row `add_implicit_time_column` inserts for `rel`. */
  function TimeDescriptor(rel: RelationData): (r: ImplicitColumnRow)
  {
    ImplicitColumnRow(rel.relid, ImplicitTimeColumnName, rel.natts + 1, TIMESTAMPOID, false)
  }

  /**
   * `add_implicit_time_column`: ERROR on a NULL relation; nothing when the
   * table already has the column; the unique index refuses a second time
   * row (reachable only for the invalid OID, which the existence test
   * never reports); otherwise one new row and a relcache invalidation.
   */
  function AddSpec(rows: seq<ImplicitColumnRow>, rel: Relation): (m: Mutation)
    ensures m.outcome.Failed? ==> m.rows == rows && !m.invalidate
    ensures rel.Some? && rel.value.relid != InvalidOid ==> !m.outcome.Failed?
    ensures |rows| <= |m.rows| <= |rows| + 1 && m.rows[..|rows|] == rows
    ensures m.invalidate <==> |m.rows| == |rows| + 1
    ensures m.invalidate ==>
      && rel.Some? && IsTimeRowOf(m.rows[|rows|], rel.value.relid)
      && m.rows[|rows|].icAttnum == rel.value.natts + 1
      && m.rows[|rows|].icAtttypid == TIMESTAMPOID && !m.rows[|rows|].icVisible
  {
    match rel
    case None => Mutation(rows, Failed(InvalidRelation), false)
    case Some(r) =>
      if HasImplicitTime(rows, r.relid) then Mutation(rows, Done, false)
      else if HasTimeRow(rows, r.relid) then Mutation(rows, Failed(UniqueViolation), false)
      else Mutation(rows + [TimeDescriptor(r)], Done, true)
  }

  /**
   * `remove_implicit_time_column`: ERROR on a NULL relation; a WARNING and
   * nothing else when the table lacks the column; otherwise every time row
   * of the table is deleted, and the relcache is invalidated if the delete
   * loop found one (a WARNING if it found none).
   */
  function RemoveSpec(rows: seq<ImplicitColumnRow>, rel: Relation): (m: Mutation)
    ensures m.outcome.Failed? <==> rel.None?
    ensures (m.outcome.Failed? || m.outcome == Warned(TimeColumnMissing)) ==> m.rows == rows && !m.invalidate
    ensures |m.rows| <= |rows|
    ensures forall x :: x in m.rows ==> x in rows
    ensures m.invalidate <==> |m.rows| < |rows|
  {
    match rel
    case None => Mutation(rows, Failed(InvalidRelation), false)
    case Some(r) =>
      if !HasImplicitTime(rows, r.relid) then Mutation(rows, Warned(TimeColumnMissing), false)
      else
        WithoutTimeRowsContents(rows, r.relid);
        if HasTimeRow(rows, r.relid) then Mutation(WithoutTimeRows(rows, r.relid), Done, true)
      else Mutation(WithoutTimeRows(rows, r.relid), Warned(NoTimeRecordFound), false)
  }

  /**
   * The delete loop of `remove_implicit_time_column` always finds a row:
   * the existence test before it already saw one, so its "no record"
   * WARNING is never raised.
   */
  lemma RemoveNeverReportsNoRecord(rows: seq<ImplicitColumnRow>, rel: Relation)
    ensures RemoveSpec(rows, rel).outcome != Warned(NoTimeRecordFound)
    ensures rel.Some? && HasImplicitTime(rows, rel.value.relid) ==> RemoveSpec(rows, rel).outcome == Done
  {
  }

  /** Add and remove on a NULL relation raise ERROR and change nothing. */
  lemma InvalidRelationChangesNothing(rows: seq<ImplicitColumnRow>)
    ensures AddSpec(rows, None) == Mutation(rows, Failed(InvalidRelation), false)
    ensures RemoveSpec(rows, None) == Mutation(rows, Failed(InvalidRelation), false)
  {
  }

  /** Add keeps the unique index satisfied. */
  lemma AddPreservesUnique(rows: seq<ImplicitColumnRow>, rel: Relation)
    requires KeysUnique(rows)
    ensures KeysUnique(AddSpec(rows, rel).rows)
  {
    if rel.Some? && !HasTimeRow(rows, rel.value.relid) {
      var s := rows + [TimeDescriptor(rel.value)];
      forall i, j | 0 <= i < j < |s|
        ensures s[i].icRelid != s[j].icRelid || s[i].icAttname != s[j].icAttname
      {
        if j == |rows| {
          assert !IsTimeRowOf(rows[i], rel.value.relid);
        } else {
          assert s[i] == rows[i] && s[j] == rows[j];
        }
      }
    }
  }

  /**
   * Add on a table without the column inserts exactly its time row, at
   * attribute number natts + 1, of type timestamp, hidden from SELECT *;
   * afterwards the table has the column, the lookup returns natts + 1,
   * there is exactly one time row, and the relcache is invalidated.
   */
  lemma AddInsertsTimeRow(rows: seq<ImplicitColumnRow>, rel: RelationData)
    requires KeysUnique(rows)
    requires rel.relid != InvalidOid
    requires !HasImplicitTime(rows, rel.relid)
    ensures AddSpec(rows, Some(rel)) ==
      Mutation(rows + [ImplicitColumnRow(rel.relid, ImplicitTimeColumnName, rel.natts + 1, TIMESTAMPOID, false)], Done, true)
    ensures HasImplicitTime(AddSpec(rows, Some(rel)).rows, rel.relid)
    ensures GetImplicitTimeAttnum(AddSpec(rows, Some(rel)).rows, rel.relid) == rel.natts + 1
    ensures CountTimeRows(AddSpec(rows, Some(rel)).rows, rel.relid) == 1
    ensures ValidateImplicitColumnType(TimeDescriptor(rel).icAtttypid)
  {
    var s := AddSpec(rows, Some(rel)).rows;
    assert IsTimeRowOf(s[|rows|], rel.relid);
    AddPreservesUnique(rows, Some(rel));
    TimeAttnumOfUniqueRow(s, rel.relid, |rows|);
    CountTimeRowsUnique(s, rel.relid);
  }

  /** Add on a table that already has the column changes nothing. */
  lemma AddWhenPresentIsNoOp(rows: seq<ImplicitColumnRow>, rel: RelationData)
    requires HasImplicitTime(rows, rel.relid)
    ensures AddSpec(rows, Some(rel)) == Mutation(rows, Done, false)
  {
  }

  /** Calling add twice leaves the catalog as one call does. */
  lemma AddIdempotent(rows: seq<ImplicitColumnRow>, rel: Relation)
    ensures AddSpec(AddSpec(rows, rel).rows, rel).rows == AddSpec(rows, rel).rows
  {
    if rel.Some? && !HasTimeRow(rows, rel.value.relid) {
      var s := AddSpec(rows, rel).rows;
      assert IsTimeRowOf(s[|rows|], rel.value.relid);
    }
  }

  /** Adding twice to a valid table yields exactly one time row. */
  lemma AddTwiceYieldsOneRow(rows: seq<ImplicitColumnRow>, rel: RelationData)
    requires KeysUnique(rows)
    requires rel.relid != InvalidOid
    ensures CountTimeRows(AddSpec(AddSpec(rows, Some(rel)).rows, Some(rel)).rows, rel.relid) == 1
  {
    AddIdempotent(rows, Some(rel));
    var s := AddSpec(rows, Some(rel)).rows;
    AddPreservesUnique(rows, Some(rel));
    if HasImplicitTime(rows, rel.relid) {
      CountTimeRowsUnique(s, rel.relid);
    } else {
      AddInsertsTimeRow(rows, rel);
    }
  }

  /**
   * Remove on a valid relation deletes every time row of the table, keeps
   * every other row, and invalidates the relcache exactly when it deleted
   * something.
   */
  lemma RemoveDeletesTimeRows(rows: seq<ImplicitColumnRow>, rel: RelationData)
    requires rel.relid != InvalidOid
    ensures !HasTimeRow(RemoveSpec(rows, Some(rel)).rows, rel.relid)
    ensures forall r :: r in RemoveSpec(rows, Some(rel)).rows <==> r in rows && !IsTimeRowOf(r, rel.relid)
    ensures RemoveSpec(rows, Some(rel)).invalidate <==> |RemoveSpec(rows, Some(rel)).rows| < |rows|
    ensures !HasImplicitTime(RemoveSpec(rows, Some(rel)).rows, rel.relid)
  {
    WithoutTimeRowsContents(rows, rel.relid);
  }

  /** Remove keeps the unique index satisfied. */
  lemma RemovePreservesUnique(rows: seq<ImplicitColumnRow>, rel: Relation)
    requires KeysUnique(rows)
    ensures KeysUnique(RemoveSpec(rows, rel).rows)
  {
    if rel.Some? {
      WithoutTimeRowsUnique(rows, rel.value.relid);
    }
  }

  /** A second remove is a no-op that only warns. */
  lemma RemoveIdempotent(rows: seq<ImplicitColumnRow>, rel: RelationData)
    ensures RemoveSpec(RemoveSpec(rows, Some(rel)).rows, Some(rel)) ==
      Mutation(RemoveSpec(rows, Some(rel)).rows, Warned(TimeColumnMissing), false)
  {
    if rel.relid != InvalidOid {
      RemoveDeletesTimeRows(rows, rel);
    }
  }

  /** Removing the column right after adding it restores the catalog. */
  lemma RemoveUndoesAdd(rows: seq<ImplicitColumnRow>, rel: RelationData)
    requires rel.relid != InvalidOid
    requires !HasImplicitTime(rows, rel.relid)
    ensures RemoveSpec(AddSpec(rows, Some(rel)).rows, Some(rel)).rows == rows
  {
    var s := rows + [TimeDescriptor(rel)];
    assert IsTimeRowOf(s[|rows|], rel.relid);
    assert s[..|s| - 1] == rows;
    WithoutTimeRowsIdentity(rows, rel.relid);
  }

  /**
   * The catalog relation pg_implicit_columns, with the relcache
   * invalidations the operations send, in order.
   */
  class ImplicitColumnsCatalog {
    var rows: seq<ImplicitColumnRow>
    var invalidations: seq<Oid>

    /** The unique index on (ic_relid, ic_attname) holds. */
    ghost predicate Valid()
      reads this
    {
      KeysUnique(rows)
    }

    constructor ()
      ensures Valid()
      ensures rows == [] && invalidations == []
    {
      rows := [];
      invalidations := [];
    }

    /** `table_has_implicit_time`: scans the table's rows for the one named "time". */
    method TableHasImplicitTime(tableOid: Oid) returns (found: bool)
      ensures found == HasImplicitTime(rows, tableOid)
    {
      if tableOid == InvalidOid {
        return false;
      }
      found := false;
      var i := 0;
      while i < |rows|
        invariant 0 <= i <= |rows|
        invariant !found
        invariant forall j | 0 <= j < i :: !IsTimeRowOf(rows[j], tableOid)
      {
        if rows[i].icRelid == tableOid && rows[i].icAttname == ImplicitTimeColumnName {
          found := true;
          break;
        }
        i := i + 1;
      }
    }

    /** `is_implicit_column`: only "time" can be implicit, and only on a table that has it. */
    method IsImplicitColumn(tableOid: Oid, columnName: Option<string>) returns (b: bool)
      ensures b <==> columnName == Some(ImplicitTimeColumnName) && HasImplicitTime(rows, tableOid)
    {
      if columnName.None? {
        return false;
      }
      if columnName.value == ImplicitTimeColumnName {
        b := TableHasImplicitTime(tableOid);
        return;
      }
      return false;
    }

    /** `add_implicit_time_column`. */
    method AddImplicitTimeColumn(rel: Relation) returns (outcome: Outcome)
      requires Valid()
      modifies this
      ensures Valid()
      ensures rows == AddSpec(old(rows), rel).rows
      ensures outcome == AddSpec(old(rows), rel).outcome
      ensures AddSpec(old(rows), rel).invalidate ==> invalidations == old(invalidations) + [rel.value.relid]
      ensures !AddSpec(old(rows), rel).invalidate ==> invalidations == old(invalidations)
    {
      AddPreservesUnique(rows, rel);
      if rel.None? {
        return Failed(InvalidRelation);
      }
      var r := rel.value;
      var has := TableHasImplicitTime(r.relid);
      if has {
        return Done;
      }
      // CatalogTupleInsert: the unique index refuses a duplicate key
      if HasTimeRow(rows, r.relid) {
        return Failed(UniqueViolation);
      }
      rows := rows + [TimeDescriptor(r)];
      invalidations := invalidations + [r.relid];
      outcome := Done;
    }

    /** `remove_implicit_time_column`: the delete loop over the table's time rows. */
    method RemoveImplicitTimeColumn(rel: Relation) returns (outcome: Outcome)
      requires Valid()
      modifies this
      ensures Valid()
      ensures rows == RemoveSpec(old(rows), rel).rows
      ensures outcome == RemoveSpec(old(rows), rel).outcome
      ensures RemoveSpec(old(rows), rel).invalidate ==> invalidations == old(invalidations) + [rel.value.relid]
      ensures !RemoveSpec(old(rows), rel).invalidate ==> invalidations == old(invalidations)
    {
      RemovePreservesUnique(rows, rel);
      if rel.None? {
        return Failed(InvalidRelation);
      }
      var r := rel.value;
      var has := TableHasImplicitTime(r.relid);
      if !has {
        return Warned(TimeColumnMissing);
      }
      var all := rows;
      var kept: seq<ImplicitColumnRow> := [];
      var found := false;
      var i := 0;
      while i < |all|
        invariant 0 <= i <= |all|
        invariant kept == WithoutTimeRows(all[..i], r.relid)
        invariant found == HasTimeRow(all[..i], r.relid)
        invariant invalidations == old(invalidations)
      {
        assert all[..i + 1][..i] == all[..i];
        HasTimeRowSnoc(all[..i + 1], r.relid);
        if IsTimeRowOf(all[i], r.relid) {
          found := true;
        } else {
          kept := kept + [all[i]];
        }
        i := i + 1;
      }
      assert all[..i] == all;
      assert found;
      rows := kept;
      if found {
        invalidations := invalidations + [r.relid];
        outcome := Done;
      } else {
        outcome := Warned(NoTimeRecordFound);
      }
    }

    /**
     * `get_table_implicit_info`: nothing for an invalid OID; otherwise a
     * snapshot listing a descriptor for each of the table's rows, in
     * order, with a matching count, and the time fields taken from the
     * table's time row. A table without rows gets an empty snapshot.
     */
    method GetTableImplicitInfo(tableOid: Oid, now: Timestamp) returns (info: Option<TableImplicitInfo>)
      ensures info.None? <==> tableOid == InvalidOid
      ensures info.Some? ==>
        && info.value.tableOid == tableOid
        && WellFormedInfo(info.value)
        && info.value.implicitColumns == Describe(RowsOfTable(rows, tableOid), now)
        && info.value.hasImplicitTime == HasImplicitTime(rows, tableOid)
        && (KeysUnique(rows) ==> info.value.timeAttnum == GetImplicitTimeAttnum(rows, tableOid))
    {
      if tableOid == InvalidOid {
        return None;
      }
      var all := rows;
      var cols: seq<ImplicitColumn> := [];
      var count := 0;
      var has := false;
      var attnum: AttrNumber := InvalidAttrNumber;
      var i := 0;
      while i < |all|
        invariant 0 <= i <= |all|
        invariant cols == Describe(RowsOfTable(all[..i], tableOid), now)
        invariant count == |cols|
        invariant has == HasTimeRow(all[..i], tableOid)
        invariant has ==> exists j | 0 <= j < i :: IsTimeRowOf(all[j], tableOid) && attnum == all[j].icAttnum
        invariant !has ==> attnum == InvalidAttrNumber
      {
        SnapshotStep(all, tableOid, now, i);
        var row := all[i];
        if row.icRelid == tableOid {
          var col := CreateImplicitColumn(Some(row.icAttname), row.icAtttypid, row.icAttnum, now);
          cols := cols + [col.value];
          count := count + 1;
          if row.icAttname == ImplicitTimeColumnName {
            has := true;
            attnum := row.icAttnum;
          }
        }
        i := i + 1;
      }
      assert all[..i] == all;
      info := Some(TableImplicitInfo(tableOid, has, attnum, cols, count));
      SnapshotWellFormed(all, tableOid, now, has, attnum);
      if has && KeysUnique(all) {
        var j :| 0 <= j < |all| && IsTimeRowOf(all[j], tableOid) && attnum == all[j].icAttnum;
        TimeAttnumOfUniqueRow(all, tableOid, j);
      }
    }
  }
}
