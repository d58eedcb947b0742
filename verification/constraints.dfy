/** The constraint assemblers of the dialect, each a fold over the rows of the
    constraint query followed by one pair per object of `all_objects`:
    primary keys (sqlalchemy_tibero/base.py:2400-2443), foreign keys
    (base.py:2490-2598), unique constraints (base.py:2618-2688) and check
    constraints (base.py:2760-2815). */
module Constraints {
  import opened Wrappers
  import opened Strings
  import opened CatalogRows
  import opened OrderedMaps

  /** The normalized local columns of some rows, in order. */
  function LocalColumns(rows: seq<ConstraintRow>, normalize: string -> string): (cs: seq<Option<string>>)
    ensures |cs| == |rows| && forall j :: 0 <= j < |rows| ==> cs[j] == NormalizeOption(rows[j].localColumn, normalize)
  {
    seq(|rows|, j requires 0 <= j < |rows| => NormalizeOption(rows[j].localColumn, normalize))
  }

  /** The normalized remote columns of some rows, in order. */
  function RemoteColumns(rows: seq<ConstraintRow>, normalize: string -> string): (cs: seq<Option<string>>)
    ensures |cs| == |rows| && forall j :: 0 <= j < |rows| ==> cs[j] == NormalizeOption(rows[j].remoteColumn, normalize)
  {
    seq(|rows|, j requires 0 <= j < |rows| => NormalizeOption(rows[j].remoteColumn, normalize))
  }

  lemma LocalColumnsSnoc(rows: seq<ConstraintRow>, row: ConstraintRow, normalize: string -> string)
    ensures LocalColumns(rows + [row], normalize) == LocalColumns(rows, normalize) + [NormalizeOption(row.localColumn, normalize)]
    ensures RemoteColumns(rows + [row], normalize) == RemoteColumns(rows, normalize) + [NormalizeOption(row.remoteColumn, normalize)]
  {
    assert forall j :: 0 <= j < |rows| ==> (rows + [row])[j] == rows[j];
  }

  /** The key of a named constraint inside its table: its normalized name. */
  function ConstraintKey(normalize: string -> string): ConstraintRow -> Option<string> {
    (row: ConstraintRow) => if row.constraintName.Some? then Some(normalize(row.constraintName.value)) else None
  }

  /** The constraint rows of one kind whose name is missing: `assert constraint_name is not None` fails on them. */
  predicate HasUnnamed(rows: seq<ConstraintRow>, kind: string) {
    exists j :: 0 <= j < |rows| && rows[j].constraintType == kind && rows[j].constraintName.None?
  }

  // ---------------------------------------------------------------------------
  // Primary keys

  datatype PrimaryKey = PrimaryKey(name: Option<string>, constrainedColumns: seq<Option<string>>)

  /** `ReflectionDefaults.pk_constraint()`. */
  const NoPrimaryKey: PrimaryKey := PrimaryKey(None, [])

  function PkTableKey(normalize: string -> string): ConstraintRow -> Option<string> {
    (row: ConstraintRow) => if row.constraintType == "P" then Some(normalize(row.tableName)) else None
  }

  /** The first row names the key and gives its first column; later rows add columns. */
  function PkStep(normalize: string -> string): (Option<PrimaryKey>, ConstraintRow) -> PrimaryKey {
    (prior: Option<PrimaryKey>, row: ConstraintRow) =>
      var column := NormalizeOption(row.localColumn, normalize);
      if prior.None? then PrimaryKey(NormalizeOption(row.constraintName, normalize), [column])
      else prior.value.(constrainedColumns := prior.value.constrainedColumns + [column])
  }

  function GetMultiPkConstraint(schema: Option<string>, allObjects: seq<string>, rows: seq<ConstraintRow>,
                                normalize: string -> string)
    : (out: seq<((Option<string>, string), PrimaryKey)>)
    ensures |out| == |allObjects|
    ensures forall i :: 0 <= i < |allObjects| ==> out[i].0 == (schema, normalize(allObjects[i]))
  {
    Emit(schema, allObjects, normalize, FoldBy([], rows, PkTableKey(normalize), PkStep(normalize)), NoPrimaryKey)
  }

  /** The reference: the primary key of a table from its primary-key rows. */
  function PrimaryKeyOf(rows: seq<ConstraintRow>, normalize: string -> string): PrimaryKey {
    if |rows| == 0 then NoPrimaryKey
    else PrimaryKey(NormalizeOption(rows[0].constraintName, normalize), LocalColumns(rows, normalize))
  }

  lemma {:induction false} PkFold(rows: seq<ConstraintRow>, normalize: string -> string)
    ensures FoldAll(None, rows, PkStep(normalize)) == if |rows| == 0 then None else Some(PrimaryKeyOf(rows, normalize))
    decreases |rows|
  {
    if |rows| > 0 {
      var init := rows[..|rows| - 1];
      var last := rows[|rows| - 1];
      assert rows == init + [last];
      FoldAllSnoc(None, init, last, PkStep(normalize));
      PkFold(init, normalize);
      LocalColumnsSnoc(init, last, normalize);
      var column := NormalizeOption(last.localColumn, normalize);
      if |init| > 0 {
        assert init[0] == rows[0];
        var pk := PrimaryKeyOf(init, normalize);
        assert PkStep(normalize)(Some(pk), last) == pk.(constrainedColumns := pk.constrainedColumns + [column]);
      } else {
        assert PkStep(normalize)(None, last) == PrimaryKey(NormalizeOption(last.constraintName, normalize), [column]);
        assert LocalColumns(rows, normalize) == [column];
      }
    }
  }

  /** Every object gets the primary key named by the first of its "P" rows,
      with the columns of all of them in row order, or the default. */
  lemma PkAssembled(schema: Option<string>, allObjects: seq<string>, rows: seq<ConstraintRow>,
                    normalize: string -> string, i: int)
    requires 0 <= i < |allObjects|
    ensures GetMultiPkConstraint(schema, allObjects, rows, normalize)[i].1
            == PrimaryKeyOf(Select(rows, PkTableKey(normalize), normalize(allObjects[i])), normalize)
  {
    var t := normalize(allObjects[i]);
    FoldByGet([], rows, PkTableKey(normalize), PkStep(normalize), t);
    FoldKeySelect(None, rows, PkTableKey(normalize), t, PkStep(normalize));
    PkFold(Select(rows, PkTableKey(normalize), t), normalize);
  }

  // ---------------------------------------------------------------------------
  // Foreign keys

  /** The foreign-key dictionary; `ondelete` is None when `options` is empty. */
  datatype ForeignKey = ForeignKey(
    name: string,
    constrainedColumns: seq<Option<string>>,
    referredSchema: Option<string>,
    referredTable: string,
    referredColumns: seq<Option<string>>,
    ondelete: Option<Option<string>>)

  /** "R" rows with a remote table; a row whose remote table is missing is
      skipped with a warning. */
  function FkTableKey(normalize: string -> string): ConstraintRow -> Option<string> {
    (row: ConstraintRow) =>
      if row.constraintType == "R" && row.remoteTable.Some? then Some(normalize(row.tableName)) else None
  }

  /** The dictionary the first row of a foreign key creates. The referred
      schema is recorded when a schema was asked for or the remote owner is
      not the reflected owner; a delete rule other than NO ACTION becomes the
      `ondelete` option. */
  function NewForeignKey(row: ConstraintRow, schema: Option<string>, owner: string, normalize: string -> string)
    : ForeignKey
  {
    ForeignKey(
      normalize(row.constraintName.GetOr("")),
      [],
      if schema.Some? || row.remoteOwner != Some(owner) then NormalizeOption(row.remoteOwner, normalize) else None,
      normalize(row.remoteTable.GetOr("")),
      [],
      if row.deleteRule != Some("NO ACTION") then Some(row.deleteRule) else None)
  }

  function FkStep(schema: Option<string>, owner: string, normalize: string -> string)
    : (Option<ForeignKey>, ConstraintRow) -> ForeignKey
  {
    (prior: Option<ForeignKey>, row: ConstraintRow) =>
      var fk := if prior.Some? then prior.value else NewForeignKey(row, schema, owner, normalize);
      fk.(constrainedColumns := fk.constrainedColumns + [NormalizeOption(row.localColumn, normalize)],
          referredColumns := fk.referredColumns + [NormalizeOption(row.remoteColumn, normalize)])
  }

  /** The pairs `get_multi_foreign_keys` yields without synonym resolution:
      for every object, its foreign keys in the order their first rows came,
      or `[]`. `owner` is the denormalized owner the rows were read for. */
  function GetMultiForeignKeys(schema: Option<string>, owner: string, allObjects: seq<string>,
                               rows: seq<ConstraintRow>, normalize: string -> string)
    : (r: Result<seq<((Option<string>, string), seq<ForeignKey>)>>)
    ensures r.Failure? <==> HasUnnamed(rows, "R")
    ensures r.Failure? ==> r.error.AssertionError?
    ensures r.Success? ==> |r.value| == |allObjects|
    ensures r.Success? ==> forall i :: 0 <= i < |allObjects| ==> r.value[i].0 == (schema, normalize(allObjects[i]))
  {
    if HasUnnamed(rows, "R") then Failure(AssertionError("constraint_name is not None"))
    else
      var m := FoldBy([], rows, FkTableKey(normalize),
                      NestStep(ConstraintKey(normalize), FkStep(schema, owner, normalize)));
      Success(Emit(schema, allObjects, normalize, InnerValues(m), []))
  }

  /** The reference: the foreign key the rows of one constraint describe. */
  function ForeignKeyOf(rows: seq<ConstraintRow>, schema: Option<string>, owner: string, normalize: string -> string)
    : ForeignKey
    requires |rows| > 0
  {
    NewForeignKey(rows[0], schema, owner, normalize).(
      constrainedColumns := LocalColumns(rows, normalize),
      referredColumns := RemoteColumns(rows, normalize))
  }

  lemma {:induction false} FkFold(rows: seq<ConstraintRow>, schema: Option<string>, owner: string,
                                  normalize: string -> string)
    requires |rows| > 0
    ensures FoldAll(None, rows, FkStep(schema, owner, normalize)) == Some(ForeignKeyOf(rows, schema, owner, normalize))
    decreases |rows|
  {
    var init := rows[..|rows| - 1];
    var last := rows[|rows| - 1];
    assert rows == init + [last];
    FoldAllSnoc(None, init, last, FkStep(schema, owner, normalize));
    LocalColumnsSnoc(init, last, normalize);
    if |init| > 0 {
      FkFold(init, schema, owner, normalize);
      assert init[0] == rows[0];
    }
  }

  /** The rows of one constraint of one table, in order. */
  function RowsOfConstraint(rows: seq<ConstraintRow>, tableKey: ConstraintRow -> Option<string>,
                            normalize: string -> string, table: string, name: string): seq<ConstraintRow> {
    Select(Select(rows, tableKey, table), ConstraintKey(normalize), name)
  }

  /** Every foreign key of every object is the one its own rows describe:
      named and pointed at the remote table by its first row, with the local
      and remote columns of all its rows in row order. */
  lemma ForeignKeysAssembled(schema: Option<string>, owner: string, allObjects: seq<string>,
                             rows: seq<ConstraintRow>, normalize: string -> string, i: int, p: int)
    requires GetMultiForeignKeys(schema, owner, allObjects, rows, normalize).Success?
    requires 0 <= i < |allObjects|
    requires 0 <= p < |GetMultiForeignKeys(schema, owner, allObjects, rows, normalize).value[i].1|
    ensures var out := GetMultiForeignKeys(schema, owner, allObjects, rows, normalize).value;
            var own := RowsOfConstraint(rows, FkTableKey(normalize), normalize, normalize(allObjects[i]), out[i].1[p].name);
            |own| > 0 && out[i].1[p] == ForeignKeyOf(own, schema, owner, normalize)
  {
    var out := GetMultiForeignKeys(schema, owner, allObjects, rows, normalize).value;
    var t := normalize(allObjects[i]);
    var inner := NestedEntry(rows, FkTableKey(normalize), ConstraintKey(normalize), FkStep(schema, owner, normalize), t);
    assert out[i].1 == Get(InnerValues(FoldBy([], rows, FkTableKey(normalize),
                                                NestStep(ConstraintKey(normalize), FkStep(schema, owner, normalize)))), t).GetOr([]);
    NestedEntryGet(rows, FkTableKey(normalize), ConstraintKey(normalize), FkStep(schema, owner, normalize), t);
    var n := inner[p].0;
    NestedEntryAt(rows, FkTableKey(normalize), ConstraintKey(normalize), FkStep(schema, owner, normalize), t, p);
    var own := Select(Select(rows, FkTableKey(normalize), t), ConstraintKey(normalize), n);
    FkFold(own, schema, owner, normalize);
    assert ConstraintKey(normalize)(own[0]) == Some(n);
  }

  /** The inner dictionary of one table after a nested fold. */
  function NestedEntry<V>(rows: seq<ConstraintRow>, tableKey: ConstraintRow -> Option<string>,
                          key: ConstraintRow -> Option<string>, step: (Option<V>, ConstraintRow) -> V, t: string)
    : seq<(string, V)>
  {
    FoldBy([], Select(rows, tableKey, t), key, step)
  }

  lemma NestedEntryGet<V>(rows: seq<ConstraintRow>, tableKey: ConstraintRow -> Option<string>,
                          key: ConstraintRow -> Option<string>, step: (Option<V>, ConstraintRow) -> V, t: string)
    ensures Get(InnerValues(FoldBy([], rows, tableKey, NestStep(key, step))), t).GetOr([])
            == Values(NestedEntry(rows, tableKey, key, step, t))
  {
    var m := FoldBy([], rows, tableKey, NestStep(key, step));
    GetInnerValues(m, t);
    FoldByGet([], rows, tableKey, NestStep(key, step), t);
    var sel := Select(rows, tableKey, t);
    FoldKeySelect(None, rows, tableKey, t, NestStep(key, step));
    FoldAllNest(None, sel, key, step);
  }

  lemma NestedEntryAt<V>(rows: seq<ConstraintRow>, tableKey: ConstraintRow -> Option<string>,
                         key: ConstraintRow -> Option<string>, step: (Option<V>, ConstraintRow) -> V, t: string, p: int)
    requires 0 <= p < |NestedEntry(rows, tableKey, key, step, t)|
    ensures var inner := NestedEntry(rows, tableKey, key, step, t);
            var own := Select(Select(rows, tableKey, t), key, inner[p].0);
            |own| > 0 && FoldAll(None, own, step) == Some(inner[p].1)
  {
    var sel := Select(rows, tableKey, t);
    var inner := FoldBy([], sel, key, step);
    var n := inner[p].0;
    FoldByDistinct([], sel, key, step);
    GetAt(inner, p);
    FoldByGet([], sel, key, step, n);
    FoldKeySelect(None, sel, key, n, step);
  }

  /** The names of one table's constraints, in the order of their first rows. */
  function ConstraintNames(rows: seq<ConstraintRow>, tableKey: ConstraintRow -> Option<string>,
                           normalize: string -> string, t: string): seq<string> {
    FirstKeys([], Select(rows, tableKey, t), ConstraintKey(normalize))
  }

  /** One table's constraints, complete: one entry per constraint name its
      rows carry, in first-row order, each the fold of exactly its own rows. */
  lemma NestedEntryComplete<V>(rows: seq<ConstraintRow>, tableKey: ConstraintRow -> Option<string>,
                               normalize: string -> string, step: (Option<V>, ConstraintRow) -> V, t: string)
    ensures var inner := NestedEntry(rows, tableKey, ConstraintKey(normalize), step, t);
            var names := ConstraintNames(rows, tableKey, normalize, t);
            OncePerNamedKey(names, Select(rows, tableKey, t), ConstraintKey(normalize))
            && |inner| == |names|
            && forall p :: 0 <= p < |names| ==>
                 var own := RowsOfConstraint(rows, tableKey, normalize, t, names[p]);
                 |own| > 0 && FoldAll(None, own, step) == Some(inner[p].1)
  {
    FoldByEntries(Select(rows, tableKey, t), ConstraintKey(normalize), step);
    FirstKeysSpec(Select(rows, tableKey, t), ConstraintKey(normalize));
  }

  /** The converse of `ForeignKeysAssembled`: every object's foreign keys are
      exactly one per constraint name among its foreign-key rows, in the order
      of their first rows, each the one its own rows describe. */
  lemma ForeignKeysComplete(schema: Option<string>, owner: string, allObjects: seq<string>,
                            rows: seq<ConstraintRow>, normalize: string -> string, i: int)
    requires GetMultiForeignKeys(schema, owner, allObjects, rows, normalize).Success?
    requires 0 <= i < |allObjects|
    ensures var fks := GetMultiForeignKeys(schema, owner, allObjects, rows, normalize).value[i].1;
            var t := normalize(allObjects[i]);
            var names := ConstraintNames(rows, FkTableKey(normalize), normalize, t);
            OncePerNamedKey(names, Select(rows, FkTableKey(normalize), t), ConstraintKey(normalize))
            && |fks| == |names|
            && forall p :: 0 <= p < |names| ==>
                 var own := RowsOfConstraint(rows, FkTableKey(normalize), normalize, t, names[p]);
                 |own| > 0 && fks[p] == ForeignKeyOf(own, schema, owner, normalize)
  {
    var t := normalize(allObjects[i]);
    var step := FkStep(schema, owner, normalize);
    NestedEntryGet(rows, FkTableKey(normalize), ConstraintKey(normalize), step, t);
    NestedEntryComplete(rows, FkTableKey(normalize), normalize, step, t);
    var names := ConstraintNames(rows, FkTableKey(normalize), normalize, t);
    forall p | 0 <= p < |names|
      ensures var own := RowsOfConstraint(rows, FkTableKey(normalize), normalize, t, names[p]);
              FoldAll(None, own, step) == Some(ForeignKeyOf(own, schema, owner, normalize))
    {
      FkFold(RowsOfConstraint(rows, FkTableKey(normalize), normalize, t, names[p]), schema, owner, normalize);
    }
  }

  /** A foreign-key row without a remote table changes nothing. */
  lemma MissingRemoteTableSkipped(schema: Option<string>, owner: string, allObjects: seq<string>,
                                  a: seq<ConstraintRow>, row: ConstraintRow, b: seq<ConstraintRow>,
                                  normalize: string -> string)
    requires row.constraintName.Some? && row.remoteTable.None?
    ensures GetMultiForeignKeys(schema, owner, allObjects, a + [row] + b, normalize)
            == GetMultiForeignKeys(schema, owner, allObjects, a + b, normalize)
  {
    FoldBySkip([], a, row, b, FkTableKey(normalize),
               NestStep(ConstraintKey(normalize), FkStep(schema, owner, normalize)));
    UnnamedIgnoresNamed(a, row, b, "R");
  }

  /** Inserting a named row does not change whether some row is unnamed. */
  lemma UnnamedIgnoresNamed(a: seq<ConstraintRow>, row: ConstraintRow, b: seq<ConstraintRow>, kind: string)
    requires row.constraintName.Some?
    ensures HasUnnamed(a + [row] + b, kind) <==> HasUnnamed(a + b, kind)
  {
    var all := a + [row] + b;
    var rest := a + b;
    if HasUnnamed(all, kind) {
      var j :| 0 <= j < |all| && all[j].constraintType == kind && all[j].constraintName.None?;
      if j < |a| {
        assert rest[j] == all[j];
      } else {
        assert j > |a|;
        assert rest[j - 1] == all[j];
      }
    }
    if HasUnnamed(rest, kind) {
      var j :| 0 <= j < |rest| && rest[j].constraintType == kind && rest[j].constraintName.None?;
      if j < |a| {
        assert all[j] == rest[j];
      } else {
        assert all[j + 1] == rest[j];
      }
    }
  }

  // ---------------------------------------------------------------------------
  // Unique constraints

  datatype UniqueConstraint = UniqueConstraint(
    name: string,
    columnNames: seq<Option<string>>,
    duplicatesIndex: Option<string>)

  function UniqueTableKey(normalize: string -> string): ConstraintRow -> Option<string> {
    (row: ConstraintRow) => if row.constraintType == "U" then Some(normalize(row.tableName)) else None
  }

  /** A unique constraint duplicates an index when an index of that very
      (unnormalized) name survived the primary-key exclusion. */
  function NewUnique(row: ConstraintRow, indexNames: set<string>, normalize: string -> string): UniqueConstraint {
    var name := normalize(row.constraintName.GetOr(""));
    UniqueConstraint(name, [],
      if row.constraintName.Some? && row.constraintName.value in indexNames then Some(name) else None)
  }

  function UniqueStep(indexNames: set<string>, normalize: string -> string)
    : (Option<UniqueConstraint>, ConstraintRow) -> UniqueConstraint
  {
    (prior: Option<UniqueConstraint>, row: ConstraintRow) =>
      var uc := if prior.Some? then prior.value else NewUnique(row, indexNames, normalize);
      uc.(columnNames := uc.columnNames + [NormalizeOption(row.localColumn, normalize)])
  }

  function GetMultiUniqueConstraints(schema: Option<string>, allObjects: seq<string>,
                                     constraintRows: seq<ConstraintRow>, indexRows: seq<IndexRow>,
                                     normalize: string -> string)
    : (r: Result<seq<((Option<string>, string), seq<UniqueConstraint>)>>)
    ensures r.Failure? <==> HasUnnamed(constraintRows, "U")
    ensures r.Failure? ==> r.error.AssertionError?
    ensures r.Success? ==> |r.value| == |allObjects|
    ensures r.Success? ==> forall i :: 0 <= i < |allObjects| ==> r.value[i].0 == (schema, normalize(allObjects[i]))
  {
    if HasUnnamed(constraintRows, "U") then Failure(AssertionError("constraint_name is not None"))
    else
      var indexNames := KeptIndexNames(constraintRows, indexRows);
      var m := FoldBy([], constraintRows, UniqueTableKey(normalize),
                      NestStep(ConstraintKey(normalize), UniqueStep(indexNames, normalize)));
      Success(Emit(schema, allObjects, normalize, InnerValues(m), []))
  }

  lemma {:induction false} UniqueFold(rows: seq<ConstraintRow>, indexNames: set<string>, normalize: string -> string)
    requires |rows| > 0
    ensures FoldAll(None, rows, UniqueStep(indexNames, normalize))
            == Some(NewUnique(rows[0], indexNames, normalize).(columnNames := LocalColumns(rows, normalize)))
    decreases |rows|
  {
    var init := rows[..|rows| - 1];
    var last := rows[|rows| - 1];
    assert rows == init + [last];
    FoldAllSnoc(None, init, last, UniqueStep(indexNames, normalize));
    LocalColumnsSnoc(init, last, normalize);
    if |init| > 0 {
      UniqueFold(init, indexNames, normalize);
      assert init[0] == rows[0];
    }
  }

  /** Every unique constraint lists the columns of all its rows in order, and
      names itself as `duplicates_index` exactly when an index row outside the
      primary-key exclusion carries its name. */
  lemma UniqueAssembled(schema: Option<string>, allObjects: seq<string>, constraintRows: seq<ConstraintRow>,
                        indexRows: seq<IndexRow>, normalize: string -> string, i: int, p: int)
    requires GetMultiUniqueConstraints(schema, allObjects, constraintRows, indexRows, normalize).Success?
    requires 0 <= i < |allObjects|
    requires 0 <= p < |GetMultiUniqueConstraints(schema, allObjects, constraintRows, indexRows, normalize).value[i].1|
    ensures var uc := GetMultiUniqueConstraints(schema, allObjects, constraintRows, indexRows, normalize).value[i].1[p];
            var own := RowsOfConstraint(constraintRows, UniqueTableKey(normalize), normalize, normalize(allObjects[i]), uc.name);
            && |own| > 0
            && uc.columnNames == LocalColumns(own, normalize)
            && own[0].constraintName.Some?
            && (uc.duplicatesIndex.Some? <==>
                  exists r :: r in KeptIndexRows(constraintRows, indexRows) && r.indexName == own[0].constraintName.value)
            && (uc.duplicatesIndex.Some? ==> uc.duplicatesIndex.value == uc.name)
  {
    var indexNames := KeptIndexNames(constraintRows, indexRows);
    var step := UniqueStep(indexNames, normalize);
    var out := GetMultiUniqueConstraints(schema, allObjects, constraintRows, indexRows, normalize).value;
    var t := normalize(allObjects[i]);
    var inner := NestedEntry(constraintRows, UniqueTableKey(normalize), ConstraintKey(normalize), step, t);
    NestedEntryGet(constraintRows, UniqueTableKey(normalize), ConstraintKey(normalize), step, t);
    var n := inner[p].0;
    NestedEntryAt(constraintRows, UniqueTableKey(normalize), ConstraintKey(normalize), step, t, p);
    var own := Select(Select(constraintRows, UniqueTableKey(normalize), t), ConstraintKey(normalize), n);
    UniqueFold(own, indexNames, normalize);
    assert ConstraintKey(normalize)(own[0]) == Some(n);
  }

  /** The converse of `UniqueAssembled`: every object's unique constraints are
      exactly one per constraint name among its "U" rows, in the order of their
      first rows, each with the columns of exactly its own rows. */
  lemma UniqueComplete(schema: Option<string>, allObjects: seq<string>, constraintRows: seq<ConstraintRow>,
                       indexRows: seq<IndexRow>, normalize: string -> string, i: int)
    requires GetMultiUniqueConstraints(schema, allObjects, constraintRows, indexRows, normalize).Success?
    requires 0 <= i < |allObjects|
    ensures var ucs := GetMultiUniqueConstraints(schema, allObjects, constraintRows, indexRows, normalize).value[i].1;
            var t := normalize(allObjects[i]);
            var names := ConstraintNames(constraintRows, UniqueTableKey(normalize), normalize, t);
            OncePerNamedKey(names, Select(constraintRows, UniqueTableKey(normalize), t), ConstraintKey(normalize))
            && |ucs| == |names|
            && forall p :: 0 <= p < |names| ==>
                 var own := RowsOfConstraint(constraintRows, UniqueTableKey(normalize), normalize, t, names[p]);
                 |own| > 0
                 && ucs[p] == NewUnique(own[0], KeptIndexNames(constraintRows, indexRows), normalize)
                                .(columnNames := LocalColumns(own, normalize))
  {
    var t := normalize(allObjects[i]);
    var indexNames := KeptIndexNames(constraintRows, indexRows);
    var step := UniqueStep(indexNames, normalize);
    NestedEntryGet(constraintRows, UniqueTableKey(normalize), ConstraintKey(normalize), step, t);
    NestedEntryComplete(constraintRows, UniqueTableKey(normalize), normalize, step, t);
    var names := ConstraintNames(constraintRows, UniqueTableKey(normalize), normalize, t);
    forall p | 0 <= p < |names|
      ensures var own := RowsOfConstraint(constraintRows, UniqueTableKey(normalize), normalize, t, names[p]);
              |own| > 0 ==>
              FoldAll(None, own, step) == Some(NewUnique(own[0], indexNames, normalize).(columnNames := LocalColumns(own, normalize)))
    {
      var own := RowsOfConstraint(constraintRows, UniqueTableKey(normalize), normalize, t, names[p]);
      if |own| > 0 {
        UniqueFold(own, indexNames, normalize);
      }
    }
  }

  // ---------------------------------------------------------------------------
  // Check constraints

  datatype CheckConstraint = CheckConstraint(name: string, sqltext: Option<string>)

  /** `re.match(r"..+?. IS NOT NULL$", s)`: at least three characters other
      than a line break, then " IS NOT NULL" at the end of the text or just
      before a final line break. */
  predicate NotNullMatch(s: string) {
    NotNullBefore(s, " IS NOT NULL") || NotNullBefore(s, " IS NOT NULL\n")
  }

  predicate NotNullBefore(s: string, tail: string) {
    EndsWith(s, tail) && |s| - |tail| >= 3 && '\n' !in s[..|s| - |tail|]
  }

  /** The condition the catalog records for a NOT NULL column is recognised. */
  lemma QuotedNotNullMatches(column: string)
    requires |column| > 0 && '\n' !in column
    ensures NotNullMatch("\"" + column + "\" IS NOT NULL")
  {
    var s := "\"" + column + "\" IS NOT NULL";
    assert s[|s| - 12..] == " IS NOT NULL";
    assert s[..|s| - 12] == "\"" + column + "\"";
  }

  /** A condition `subject IS NOT NULL`, with or without a final line break,
      is recognised exactly when its subject has three characters or more
      and no line break. */
  lemma NotNullSubject(subject: string)
    ensures NotNullMatch(subject + " IS NOT NULL") <==> |subject| >= 3 && '\n' !in subject
    ensures NotNullMatch(subject + " IS NOT NULL\n") <==> |subject| >= 3 && '\n' !in subject
  {
    var s, t := subject + " IS NOT NULL", subject + " IS NOT NULL\n";
    assert s[|s| - 12..] == " IS NOT NULL" && s[..|s| - 12] == subject && s[|s| - 1] == 'L';
    assert t[|t| - 13..] == " IS NOT NULL\n" && t[..|t| - 13] == subject && t[|t| - 1] == '\n';
  }

  /** The check constraints kept: named, and not a NOT NULL unless all are asked for. */
  function CheckTableKey(includeAll: bool, normalize: string -> string): ConstraintRow -> Option<string> {
    (row: ConstraintRow) =>
      if row.constraintType == "C" && row.constraintName.Some?
         && (includeAll || (row.searchCondition.Some? && !NotNullMatch(row.searchCondition.value)))
      then Some(normalize(row.tableName)) else None
  }

  function CheckOf(normalize: string -> string): ConstraintRow -> CheckConstraint {
    (row: ConstraintRow) => CheckConstraint(normalize(row.constraintName.GetOr("")), row.searchCondition)
  }

  /** A named check row without a condition: `re.match` on None raises TypeError. */
  predicate HasMissingCondition(rows: seq<ConstraintRow>, includeAll: bool) {
    !includeAll
    && exists j :: 0 <= j < |rows| && rows[j].constraintType == "C" && rows[j].constraintName.Some?
                   && rows[j].searchCondition.None?
  }

  function GetMultiCheckConstraints(schema: Option<string>, allObjects: seq<string>, rows: seq<ConstraintRow>,
                                    includeAll: bool, normalize: string -> string)
    : (r: Result<seq<((Option<string>, string), seq<CheckConstraint>)>>)
    ensures r.Failure? <==> HasMissingCondition(rows, includeAll)
    ensures r.Failure? ==> r.error.TypeError?
    ensures r.Success? ==> |r.value| == |allObjects|
    ensures r.Success? ==> forall i :: 0 <= i < |allObjects| ==> r.value[i].0 == (schema, normalize(allObjects[i]))
  {
    if HasMissingCondition(rows, includeAll) then Failure(TypeError("expected string or bytes-like object"))
    else Success(Emit(schema, allObjects, normalize, Group(rows, CheckTableKey(includeAll, normalize), CheckOf(normalize)), []))
  }

  /** Every object gets the kept check constraints of its rows, in row order. */
  lemma ChecksAssembled(schema: Option<string>, allObjects: seq<string>, rows: seq<ConstraintRow>,
                        includeAll: bool, normalize: string -> string, i: int)
    requires GetMultiCheckConstraints(schema, allObjects, rows, includeAll, normalize).Success?
    requires 0 <= i < |allObjects|
    ensures GetMultiCheckConstraints(schema, allObjects, rows, includeAll, normalize).value[i].1
            == ValuesOf(rows, CheckTableKey(includeAll, normalize), CheckOf(normalize), normalize(allObjects[i]))
  {
    GroupGet(rows, CheckTableKey(includeAll, normalize), CheckOf(normalize), normalize(allObjects[i]));
  }

  /** Unless all are asked for, no reflected check condition is a NOT NULL. */
  lemma NotNullSuppressed(schema: Option<string>, allObjects: seq<string>, rows: seq<ConstraintRow>,
                          normalize: string -> string, i: int, p: int)
    requires GetMultiCheckConstraints(schema, allObjects, rows, false, normalize).Success?
    requires 0 <= i < |allObjects|
    requires 0 <= p < |GetMultiCheckConstraints(schema, allObjects, rows, false, normalize).value[i].1|
    ensures var c := GetMultiCheckConstraints(schema, allObjects, rows, false, normalize).value[i].1[p];
            c.sqltext.Some? && !NotNullMatch(c.sqltext.value)
  {
    ChecksAssembled(schema, allObjects, rows, false, normalize, i);
    KeptChecks(rows, false, normalize, normalize(allObjects[i]), p);
  }

  lemma {:induction false} KeptChecks(rows: seq<ConstraintRow>, includeAll: bool, normalize: string -> string,
                                      t: string, p: int)
    requires 0 <= p < |ValuesOf(rows, CheckTableKey(includeAll, normalize), CheckOf(normalize), t)|
    ensures var c := ValuesOf(rows, CheckTableKey(includeAll, normalize), CheckOf(normalize), t)[p];
            includeAll || (c.sqltext.Some? && !NotNullMatch(c.sqltext.value))
    decreases |rows|
  {
    var key := CheckTableKey(includeAll, normalize);
    var head := if key(rows[0]) == Some(t) then [CheckOf(normalize)(rows[0])] else [];
    var rest := ValuesOf(rows[1..], key, CheckOf(normalize), t);
    assert ValuesOf(rows, key, CheckOf(normalize), t) == head + rest;
    if p >= |head| {
      KeptChecks(rows[1..], includeAll, normalize, t, p - |head|);
    }
  }
}
