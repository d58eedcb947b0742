/** The rows the reflection queries deliver, as the assemblers see them, and
    the primary-key index exclusion of `_get_indexes_rows`
    (sqlalchemy_tibero/base.py:2155-2201). Index and constraint names arrive
    as the catalog query renders them. */
module CatalogRows {
  import opened Wrappers
  import opened OrderedMaps

  /** One row of the constraint query (one per constrained column). */
  datatype ConstraintRow = ConstraintRow(
    tableName: string,
    constraintType: string,
    constraintName: Option<string>,
    localColumn: Option<string>,
    remoteTable: Option<string>,
    remoteColumn: Option<string>,
    remoteOwner: Option<string>,
    searchCondition: Option<string>,
    deleteRule: Option<string>,
    indexName: Option<string>)

  /** One row of the index query (one per indexed column or expression). */
  datatype IndexRow = IndexRow(
    tableName: string,
    indexName: string,
    columnName: Option<string>,
    uniqueness: Option<string>,
    indexType: Option<string>,
    compression: Option<string>,
    prefixLength: Option<int>,
    columnExpression: Option<string>,
    descend: string)

  /** `normalize_name` lifted to a possibly missing name: None stays None. */
  function NormalizeOption(name: Option<string>, normalize: string -> string): (r: Option<string>)
    ensures r.Some? <==> name.Some?
    ensures name.Some? ==> r.value == normalize(name.value)
  {
    MapOption(name, normalize)
  }

  /** The name a primary-key row contributes to the excluded set: its index
      name when that is a non-empty name other than the constraint's, and the
      constraint name otherwise. */
  function PkIndexName(row: ConstraintRow): (n: Option<string>)
    ensures n == row.indexName || n == row.constraintName
    ensures n == row.indexName <== row.indexName.Some? && row.indexName.value != "" && row.indexName != row.constraintName
    ensures n == row.constraintName <== row.indexName.None? || row.indexName.value == ""
  {
    if row.indexName.Some? && row.indexName.value != "" && row.indexName != row.constraintName then row.indexName
    else row.constraintName
  }

  /** The set `pks`: one name per primary-key row. */
  function PkIndexNames(rows: seq<ConstraintRow>): (pks: set<Option<string>>)
    ensures forall n :: n in pks <==> exists j :: 0 <= j < |rows| && rows[j].constraintType == "P" && PkIndexName(rows[j]) == n
    decreases |rows|
  {
    if |rows| == 0 then {}
    else
      var rest := PkIndexNames(rows[1..]);
      assert forall j :: 1 <= j < |rows| ==> rows[j] == rows[1..][j - 1];
      if rows[0].constraintType == "P" then {PkIndexName(rows[0])} + rest else rest
  }

  /** The index rows `_get_indexes_rows` returns: those whose index name is
      not in the primary-key set, in their original order. */
  function KeptIndexRows(constraintRows: seq<ConstraintRow>, indexRows: seq<IndexRow>): (kept: seq<IndexRow>)
    ensures |kept| <= |indexRows|
    ensures forall j :: 0 <= j < |kept| ==> kept[j] in indexRows && Some(kept[j].indexName) !in PkIndexNames(constraintRows)
    ensures forall j :: 0 <= j < |indexRows| && Some(indexRows[j].indexName) !in PkIndexNames(constraintRows)
              ==> indexRows[j] in kept
    decreases |indexRows|
  {
    if |indexRows| == 0 then []
    else
      var rest := KeptIndexRows(constraintRows, indexRows[1..]);
      assert forall j :: 1 <= j < |indexRows| ==> indexRows[j] == indexRows[1..][j - 1];
      if Some(indexRows[0].indexName) in PkIndexNames(constraintRows) then rest else [indexRows[0]] + rest
  }

  /** The key that selects an index row outside the excluded set. */
  function Unexcluded(pks: set<Option<string>>): IndexRow -> Option<bool> {
    (row: IndexRow) => if Some(row.indexName) !in pks then Some(true) else None
  }

  /** The exclusion is the filter over the index rows: every row outside the
      primary-key set, once, in the order the query delivered it. */
  lemma {:induction false} KeptIndexRowsFilter(constraintRows: seq<ConstraintRow>, indexRows: seq<IndexRow>)
    ensures KeptIndexRows(constraintRows, indexRows)
            == Select(indexRows, Unexcluded(PkIndexNames(constraintRows)), true)
    decreases |indexRows|
  {
    if |indexRows| > 0 {
      KeptIndexRowsFilter(constraintRows, indexRows[1..]);
    }
  }

  /** No primary key's own index survives the exclusion. */
  lemma PkIndexExcluded(constraintRows: seq<ConstraintRow>, indexRows: seq<IndexRow>, j: int)
    requires 0 <= j < |constraintRows| && constraintRows[j].constraintType == "P"
    ensures forall r :: r in KeptIndexRows(constraintRows, indexRows) ==> Some(r.indexName) != PkIndexName(constraintRows[j])
  {
    var kept := KeptIndexRows(constraintRows, indexRows);
    forall r | r in kept ensures Some(r.indexName) != PkIndexName(constraintRows[j]) {
      var k :| 0 <= k < |kept| && kept[k] == r;
    }
  }

  /** `index_names` of `get_multi_unique_constraints`: the raw names of the kept index rows. */
  function KeptIndexNames(constraintRows: seq<ConstraintRow>, indexRows: seq<IndexRow>): (names: set<string>)
    ensures forall n :: n in names <==> exists r :: r in KeptIndexRows(constraintRows, indexRows) && r.indexName == n
  {
    set r | r in KeptIndexRows(constraintRows, indexRows) :: r.indexName
  }
}
