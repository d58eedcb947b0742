/** The index assembly of `get_multi_indexes` (sqlalchemy_tibero/base.py:2204-2279):
    the rows of `_get_indexes_rows` are grouped by table, then by index, and
    every row adds one entry to its index's `column_names`: the normalized
    column name, or None for an expression, which goes to `expressions`. */
module Indexes {
  import opened Wrappers
  import opened Strings
  import opened CatalogRows
  import opened OrderedMaps

  /** The index dictionary. `bitmap` stands for `dialect_options["tibero_bitmap"]`
      (present only as True); `compress` is None when `tibero_compress` is
      absent; `expressions` and `columnSorting` are None when their keys are
      absent, and `columnSorting` lists the keys of `column_sorting`, each of
      which maps to `("desc",)`. */
  datatype ReflectedIndex = ReflectedIndex(
    name: string,
    columnNames: seq<Option<string>>,
    unique: bool,
    bitmap: bool,
    compress: Option<Option<int>>,
    expressions: Option<seq<Option<string>>>,
    columnSorting: Option<seq<string>>)

  const BitmapTypes: set<string> := {"BITMAP", "FUNCTION-BASED BITMAP"}

  /** The asserts on DESCEND: a column is ascending, an expression ascending or descending. */
  predicate DescendValid(row: IndexRow) {
    if row.columnExpression.Some? then Lower(row.descend) == "asc" || Lower(row.descend) == "desc"
    else Lower(row.descend) == "asc"
  }

  predicate AllDescendValid(rows: seq<IndexRow>) {
    forall j :: 0 <= j < |rows| ==> DescendValid(rows[j])
  }

  /** A descending expression, the only kind that gets a `column_sorting` entry. */
  predicate SortsDescending(row: IndexRow) {
    row.columnExpression.Some? && Lower(row.descend) != "asc"
  }

  /** The dictionary the first row of an index creates, before its column is added. */
  function NewIndex(row: IndexRow, normalize: string -> string): ReflectedIndex {
    ReflectedIndex(
      normalize(row.indexName),
      [],
      row.uniqueness == Some("UNIQUE"),
      row.indexType.Some? && row.indexType.value in BitmapTypes,
      if row.compression == Some("ENABLED") then Some(row.prefixLength) else None,
      None,
      None)
  }

  /** `cs[expr] = ("desc",)` on the keys of an insertion-ordered dictionary. */
  function AddKey(keys: seq<string>, e: string): (r: seq<string>)
    ensures forall x :: x in r <==> x in keys || x == e
  {
    if e in keys then keys else keys + [e]
  }

  /** The column (or expression) one row adds to its index. */
  function AddColumn(index: ReflectedIndex, row: IndexRow, normalize: string -> string): ReflectedIndex {
    match row.columnExpression
    case Some(e) =>
      index.(
        columnNames := index.columnNames + [None],
        expressions := Some(if index.expressions.Some? then index.expressions.value + [Some(e)]
                            else index.columnNames + [Some(e)]),
        columnSorting := if Lower(row.descend) != "asc" then Some(AddKey(index.columnSorting.GetOr([]), e))
                         else index.columnSorting)
    case None =>
      var cn := NormalizeOption(row.columnName, normalize);
      index.(
        columnNames := index.columnNames + [cn],
        expressions := if index.expressions.Some? then Some(index.expressions.value + [cn]) else None)
  }

  function IndexStep(normalize: string -> string): (Option<ReflectedIndex>, IndexRow) -> ReflectedIndex {
    (prior: Option<ReflectedIndex>, row: IndexRow) =>
      AddColumn(if prior.Some? then prior.value else NewIndex(row, normalize), row, normalize)
  }

  function IndexKey(normalize: string -> string): IndexRow -> Option<string> {
    (row: IndexRow) => Some(normalize(row.indexName))
  }

  function TableKey(normalize: string -> string): IndexRow -> Option<string> {
    (row: IndexRow) => Some(normalize(row.tableName))
  }

  /** The pairs `get_multi_indexes` yields: for every object, the list of its
      indexes in the order their first rows came, or `[]`. A failed DESCEND
      assert in any row ends the call. */
  function GetMultiIndexes(schema: Option<string>, allObjects: seq<string>, constraintRows: seq<ConstraintRow>,
                           indexRows: seq<IndexRow>, normalize: string -> string)
    : (r: Result<seq<((Option<string>, string), seq<ReflectedIndex>)>>)
    ensures r.Failure? <==> !AllDescendValid(KeptIndexRows(constraintRows, indexRows))
    ensures r.Failure? ==> r.error.AssertionError?
    ensures r.Success? ==> |r.value| == |allObjects|
    ensures r.Success? ==> forall i :: 0 <= i < |allObjects| ==> r.value[i].0 == (schema, normalize(allObjects[i]))
  {
    var rows := KeptIndexRows(constraintRows, indexRows);
    if !AllDescendValid(rows) then Failure(AssertionError("descend"))
    else
      var m := FoldBy([], rows, TableKey(normalize), NestStep(IndexKey(normalize), IndexStep(normalize)));
      Success(Emit(schema, allObjects, normalize, InnerValues(m), []))
  }

  // ---------------------------------------------------------------------------
  // The shape of one index

  /** What the rows of one index, in order, make of its column lists. */
  ghost predicate Describes(index: ReflectedIndex, rows: seq<IndexRow>, normalize: string -> string) {
    && |index.columnNames| == |rows|
    && (forall j :: 0 <= j < |rows| ==>
          index.columnNames[j] == if rows[j].columnExpression.Some? then None
                                  else NormalizeOption(rows[j].columnName, normalize))
    && (index.expressions.Some? <==> exists j :: 0 <= j < |rows| && rows[j].columnExpression.Some?)
    && (index.expressions.Some? ==>
          |index.expressions.value| == |rows|
          && forall j :: 0 <= j < |rows| ==>
               index.expressions.value[j] == if rows[j].columnExpression.Some? then rows[j].columnExpression
                                             else index.columnNames[j])
    && (index.columnSorting.Some? <==> exists j :: 0 <= j < |rows| && SortsDescending(rows[j]))
    && (index.columnSorting.Some? ==>
          forall e :: e in index.columnSorting.value <==>
            exists j :: 0 <= j < |rows| && SortsDescending(rows[j]) && rows[j].columnExpression == Some(e))
  }

  /** The fields the first row fixes. */
  predicate SameHeader(a: ReflectedIndex, b: ReflectedIndex) {
    a.name == b.name && a.unique == b.unique && a.bitmap == b.bitmap && a.compress == b.compress
  }

  lemma NewIndexDescribesNothing(row: IndexRow, normalize: string -> string)
    ensures Describes(NewIndex(row, normalize), [], normalize)
  {
  }

  /** Adding one row's column extends what the index describes by that row. */
  lemma AddColumnDescribes(index: ReflectedIndex, rows: seq<IndexRow>, row: IndexRow, normalize: string -> string)
    requires Describes(index, rows, normalize)
    ensures Describes(AddColumn(index, row, normalize), rows + [row], normalize)
    ensures SameHeader(AddColumn(index, row, normalize), index)
  {
    var next := AddColumn(index, row, normalize);
    var all := rows + [row];
    assert forall j :: 0 <= j < |rows| ==> all[j] == rows[j];
    assert all[|rows|] == row;
    ExpressionsDescribed(index, rows, row, normalize);
    SortingDescribed(index, rows, row, normalize);
  }

  lemma ExpressionsDescribed(index: ReflectedIndex, rows: seq<IndexRow>, row: IndexRow, normalize: string -> string)
    requires Describes(index, rows, normalize)
    ensures var next := AddColumn(index, row, normalize);
            var all := rows + [row];
            (next.expressions.Some? <==> exists j :: 0 <= j < |all| && all[j].columnExpression.Some?)
            && (next.expressions.Some? ==>
                  |next.expressions.value| == |all|
                  && forall j :: 0 <= j < |all| ==>
                       next.expressions.value[j] == if all[j].columnExpression.Some? then all[j].columnExpression
                                                    else next.columnNames[j])
  {
    var all := rows + [row];
    assert forall j :: 0 <= j < |rows| ==> all[j] == rows[j];
    assert all[|rows|] == row;
    if index.expressions.None? && row.columnExpression.Some? {
      assert forall j :: 0 <= j < |rows| ==> rows[j].columnExpression.None?;
    }
  }

  lemma SortingDescribed(index: ReflectedIndex, rows: seq<IndexRow>, row: IndexRow, normalize: string -> string)
    requires Describes(index, rows, normalize)
    ensures var next := AddColumn(index, row, normalize);
            var all := rows + [row];
            (next.columnSorting.Some? <==> exists j :: 0 <= j < |all| && SortsDescending(all[j]))
            && (next.columnSorting.Some? ==>
                  forall e :: e in next.columnSorting.value <==>
                    exists j :: 0 <= j < |all| && SortsDescending(all[j]) && all[j].columnExpression == Some(e))
  {
    var all := rows + [row];
    assert forall j :: 0 <= j < |rows| ==> all[j] == rows[j];
    assert all[|rows|] == row;
    var next := AddColumn(index, row, normalize);
    if next.columnSorting.Some? {
      forall e ensures e in next.columnSorting.value <==>
                         exists j :: 0 <= j < |all| && SortsDescending(all[j]) && all[j].columnExpression == Some(e)
      {
        if exists j :: 0 <= j < |all| && SortsDescending(all[j]) && all[j].columnExpression == Some(e) {
          var j :| 0 <= j < |all| && SortsDescending(all[j]) && all[j].columnExpression == Some(e);
          if j < |rows| {
            assert SortsDescending(rows[j]) && rows[j].columnExpression == Some(e);
          }
        }
      }
    }
  }

  /** The index the rows of one index build, in order. */
  function BuildIndex(rows: seq<IndexRow>, normalize: string -> string): Option<ReflectedIndex> {
    FoldAll(None, rows, IndexStep(normalize))
  }

  /** One index built from its rows: the first row fixes name, uniqueness and
      dialect options; `column_names` has one entry per row, in row order, with
      None exactly at the expressions; `expressions`, once present, is as long
      as `column_names` and agrees with it wherever that is not None; and
      `column_sorting` holds exactly the descending expressions. */
  lemma {:induction false} IndexShape(rows: seq<IndexRow>, normalize: string -> string)
    requires |rows| > 0
    ensures BuildIndex(rows, normalize).Some?
    ensures Describes(BuildIndex(rows, normalize).value, rows, normalize)
    ensures SameHeader(BuildIndex(rows, normalize).value, NewIndex(rows[0], normalize))
    decreases |rows|
  {
    var init := rows[..|rows| - 1];
    var last := rows[|rows| - 1];
    assert rows == init + [last];
    FoldAllSnoc(None, init, last, IndexStep(normalize));
    var prior := BuildIndex(init, normalize);
    var start := if prior.Some? then prior.value else NewIndex(last, normalize);
    if |init| == 0 {
      NewIndexDescribesNothing(last, normalize);
    } else {
      IndexShape(init, normalize);
      assert init[0] == rows[0];
    }
    assert IndexStep(normalize)(prior, last) == AddColumn(start, last, normalize);
    AddColumnDescribes(start, init, last, normalize);
  }

  // ---------------------------------------------------------------------------
  // The assembly

  /** The rows of one index of one table, in order. */
  function RowsOfIndex(rows: seq<IndexRow>, normalize: string -> string, table: string, index: string): seq<IndexRow> {
    Select(Select(rows, TableKey(normalize), table), IndexKey(normalize), index)
  }

  /** Every index of every object is the index built from exactly its own
      rows, which exist and come from the primary-key-filtered rows. */
  lemma IndexesAssembled(schema: Option<string>, allObjects: seq<string>, constraintRows: seq<ConstraintRow>,
                         indexRows: seq<IndexRow>, normalize: string -> string, i: int, p: int)
    requires GetMultiIndexes(schema, allObjects, constraintRows, indexRows, normalize).Success?
    requires 0 <= i < |allObjects|
    requires 0 <= p < |GetMultiIndexes(schema, allObjects, constraintRows, indexRows, normalize).value[i].1|
    ensures var out := GetMultiIndexes(schema, allObjects, constraintRows, indexRows, normalize).value;
            var rows := RowsOfIndex(KeptIndexRows(constraintRows, indexRows), normalize,
                                    normalize(allObjects[i]), out[i].1[p].name);
            |rows| > 0 && BuildIndex(rows, normalize) == Some(out[i].1[p])
  {
    var kept := KeptIndexRows(constraintRows, indexRows);
    var out := GetMultiIndexes(schema, allObjects, constraintRows, indexRows, normalize).value;
    var t := normalize(allObjects[i]);
    var step := NestStep(IndexKey(normalize), IndexStep(normalize));
    var m := FoldBy([], kept, TableKey(normalize), step);
    GetInnerValues(m, t);
    assert out[i].1 == Get(InnerValues(m), t).GetOr([]);
    assert Get(m, t).Some?;
    FoldByGet([], kept, TableKey(normalize), step, t);
    var sel := Select(kept, TableKey(normalize), t);
    FoldKeySelect(None, kept, TableKey(normalize), t, step);
    FoldAllNest(None, sel, IndexKey(normalize), IndexStep(normalize));
    var inner := FoldBy([], sel, IndexKey(normalize), IndexStep(normalize));
    assert Get(m, t) == Some(inner);
    assert out[i].1 == Values(inner);
    var n := inner[p].0;
    FoldByDistinct([], sel, IndexKey(normalize), IndexStep(normalize));
    GetAt(inner, p);
    FoldByGet([], sel, IndexKey(normalize), IndexStep(normalize), n);
    FoldKeySelect(None, sel, IndexKey(normalize), n, IndexStep(normalize));
    var rows := Select(sel, IndexKey(normalize), n);
    assert BuildIndex(rows, normalize) == Some(out[i].1[p]);
    assert |rows| > 0;
    IndexShape(rows, normalize);
    assert IndexKey(normalize)(rows[0]) == Some(n);
  }

  /** The converse of `IndexesAssembled`: every object's indexes are exactly
      one per index name among its kept rows, in the order of their first
      rows, each built from exactly its own rows. */
  lemma IndexesComplete(schema: Option<string>, allObjects: seq<string>, constraintRows: seq<ConstraintRow>,
                        indexRows: seq<IndexRow>, normalize: string -> string, i: int)
    requires GetMultiIndexes(schema, allObjects, constraintRows, indexRows, normalize).Success?
    requires 0 <= i < |allObjects|
    ensures var indexes := GetMultiIndexes(schema, allObjects, constraintRows, indexRows, normalize).value[i].1;
            var kept := KeptIndexRows(constraintRows, indexRows);
            var t := normalize(allObjects[i]);
            var names := FirstKeys([], Select(kept, TableKey(normalize), t), IndexKey(normalize));
            OncePerNamedKey(names, Select(kept, TableKey(normalize), t), IndexKey(normalize))
            && |indexes| == |names|
            && forall p :: 0 <= p < |names| ==>
                 var own := RowsOfIndex(kept, normalize, t, names[p]);
                 |own| > 0 && BuildIndex(own, normalize) == Some(indexes[p])
  {
    var kept := KeptIndexRows(constraintRows, indexRows);
    var t := normalize(allObjects[i]);
    var step := NestStep(IndexKey(normalize), IndexStep(normalize));
    var m := FoldBy([], kept, TableKey(normalize), step);
    GetInnerValues(m, t);
    FoldByGet([], kept, TableKey(normalize), step, t);
    var sel := Select(kept, TableKey(normalize), t);
    FoldKeySelect(None, kept, TableKey(normalize), t, step);
    FoldAllNest(None, sel, IndexKey(normalize), IndexStep(normalize));
    FoldByEntries(sel, IndexKey(normalize), IndexStep(normalize));
    FirstKeysSpec(sel, IndexKey(normalize));
  }
}
