/** The column loop of `get_multi_columns` (sqlalchemy_tibero/base.py:1770-1908):
    every catalog row becomes the dictionary of one reflected column, and the
    columns are grouped by their normalized table name, in the order the
    tables first appear in the rows. */
module Columns {
  import opened Wrappers
  import opened Strings
  import opened CatalogTypes
  import opened Identity
  import opened OrderedMaps

  /** One row of the column query. DATA_PRECISION, DATA_SCALE and CHAR_LENGTH
      are taken as integers (`maybe_int` turns integral floats into ints). */
  datatype ColumnRow = ColumnRow(
    tableName: string,
    columnName: string,
    dataType: string,
    charLength: Option<int>,
    precision: Option<int>,
    scale: Option<int>,
    nullable: Option<string>,
    dataDefault: Option<string>,
    comments: Option<string>,
    virtualColumn: Option<string>,
    defaultOnNull: Option<string>,
    identityOptions: Option<string>)

  /** The `computed` entry: the generation expression. */
  datatype Computed = Computed(sqltext: Option<string>)

  /** The column dictionary. `quote` stands for the presence of the `quote`
      key (always True when present); `computed` and `identity` are None when
      their keys are absent. */
  datatype ReflectedColumn = ReflectedColumn(
    name: string,
    columnType: ColumnType,
    nullable: bool,
    default: Option<string>,
    comment: Option<string>,
    quote: bool,
    computed: Option<Computed>,
    identity: Option<IdentityOptions>)

  /** `orig_colname.lower() == orig_colname`: the name has no upper-case letter. */
  predicate IsLowerCase(name: string) {
    Lower(name) == name
  }

  /** A name is left unchanged by lowering exactly when it has no letter A-Z. */
  lemma LowerCaseIffNoUpper(name: string)
    ensures IsLowerCase(name) <==> forall i :: 0 <= i < |name| ==> !('A' <= name[i] <= 'Z')
  {
    if IsLowerCase(name) {
      forall i | 0 <= i < |name| ensures !('A' <= name[i] <= 'Z') {
        assert Lower(name)[i] == LowerChar(name[i]);
      }
    }
  }

  /** The identity entry: parsed when the row has identity options. */
  function ReadIdentity(row: ColumnRow): (r: Result<Option<IdentityOptions>>)
    ensures r.Failure? ==> r.error.ValueError?
    ensures r.Success? ==> (r.value.Some? <==> row.identityOptions.Some?)
  {
    match row.identityOptions
    case None => Success(None)
    case Some(text) =>
      var id :- ParseIdentityOptions(text, row.defaultOnNull);
      Success(Some(id))
  }

  /** One catalog row as a column dictionary. The only error is an identity
      text `_parse_identity_options` cannot read. */
  function ReflectColumn(row: ColumnRow, normalize: string -> string): (r: Result<ReflectedColumn>)
    ensures r.Failure? <==> row.identityOptions.Some?
                            && ParseIdentityOptions(row.identityOptions.value, row.defaultOnNull).Failure?
    ensures r.Failure? ==> r.error.ValueError?
    ensures r.Success? ==> r.value.name == normalize(row.columnName)
    ensures r.Success? ==> r.value.columnType == ReflectType(row.dataType, row.precision, row.scale, row.charLength)
    ensures r.Success? ==> (r.value.nullable <==> row.nullable == Some("Y"))
    ensures r.Success? ==> (r.value.quote <==> IsLowerCase(row.columnName))
    ensures r.Success? ==> r.value.comment == row.comments
    // a generated or identity column carries no server default
    ensures r.Success? ==> (r.value.default.Some? ==> r.value.computed.None? && r.value.identity.None?)
    ensures r.Success? ==> (r.value.computed.Some? <==> row.virtualColumn == Some("Y"))
    ensures r.Success? && r.value.computed.Some? ==> r.value.computed.value.sqltext == row.dataDefault
    ensures r.Success? ==> (r.value.identity.Some? <==> row.identityOptions.Some?)
    ensures r.Success? && r.value.computed.None? && r.value.identity.None? ==> r.value.default == row.dataDefault
  {
    var identity :- ReadIdentity(row);
    var virtual := row.virtualColumn == Some("Y");
    var computed := if virtual then Some(Computed(row.dataDefault)) else None;
    var default := if virtual || identity.Some? then None else row.dataDefault;
    Success(ReflectedColumn(
      normalize(row.columnName),
      ReflectType(row.dataType, row.precision, row.scale, row.charLength),
      row.nullable == Some("Y"),
      default,
      row.comments,
      IsLowerCase(row.columnName),
      computed,
      identity))
  }

  /** A column the catalog describes with the identity text of a sequence
      generator reflects that generator's options and no default. */
  lemma IdentityColumnRoundTrip(row: ColumnRow, normalize: string -> string, c: CatalogIdentity)
    requires row.identityOptions == Some(RenderCatalogIdentity(c))
    ensures ReflectColumn(row, normalize).Success?
    ensures ReflectColumn(row, normalize).value.default.None?
    ensures ReflectColumn(row, normalize).value.identity
            == Some(IdentityOptions(c.always, row.defaultOnNull == Some("YES"),
                                    Some(c.start), Some(c.increment), Some(c.maxValue), Some(c.minValue),
                                    Some(c.cycle), Some(c.cache), Some(c.order)))
  {
    ParseRendered(c, row.defaultOnNull);
  }

  // ---------------------------------------------------------------------------
  // The loop

  /** Every row reflected in order; the first failing row's error ends the loop. */
  function ReflectAll(rows: seq<ColumnRow>, normalize: string -> string): (r: Result<seq<(string, ReflectedColumn)>>)
    ensures r.Success? <==> forall j :: 0 <= j < |rows| ==> ReflectColumn(rows[j], normalize).Success?
    ensures r.Failure? ==> r.error.ValueError?
    ensures r.Success? ==> |r.value| == |rows|
    ensures r.Success? ==> forall j :: 0 <= j < |rows| ==>
              r.value[j] == (normalize(rows[j].tableName), ReflectColumn(rows[j], normalize).value)
    decreases |rows|
  {
    if |rows| == 0 then Success([])
    else
      var c :- ReflectColumn(rows[0], normalize);
      var rest :- ReflectAll(rows[1..], normalize);
      assert forall j :: 1 <= j < |rows| ==> rows[j] == rows[1..][j - 1];
      Success([(normalize(rows[0].tableName), c)] + rest)
  }

  function TableOf(p: (string, ReflectedColumn)): Option<string> {
    Some(p.0)
  }

  function ColumnOf(p: (string, ReflectedColumn)): ReflectedColumn {
    p.1
  }

  /** `columns.items()`: one entry per table that has rows, in the order the
      tables first appear. */
  function GetMultiColumns(schema: Option<string>, rows: seq<ColumnRow>, normalize: string -> string)
    : (r: Result<seq<((Option<string>, string), seq<ReflectedColumn>)>>)
    ensures r.Success? <==> forall j :: 0 <= j < |rows| ==> ReflectColumn(rows[j], normalize).Success?
    ensures r.Failure? ==> r.error.ValueError?
    ensures r.Success? ==> forall i :: 0 <= i < |r.value| ==> r.value[i].0.0 == schema
    ensures r.Success? ==> DistinctKeys(r.value)
  {
    var pairs :- ReflectAll(rows, normalize);
    Success(WithSchema(schema, Group(pairs, TableOf, ColumnOf)))
  }

  /** The table a catalog row belongs to. */
  function RowTable(normalize: string -> string): ColumnRow -> Option<string> {
    (row: ColumnRow) => Some(normalize(row.tableName))
  }

  /** The reference: the columns of the rows of one table, in row order. */
  function TableColumns(rows: seq<ColumnRow>, normalize: string -> string, table: string): seq<ReflectedColumn>
    requires forall j :: 0 <= j < |rows| ==> ReflectColumn(rows[j], normalize).Success?
    decreases |rows|
  {
    if |rows| == 0 then []
    else
      (if normalize(rows[0].tableName) == table then [ReflectColumn(rows[0], normalize).value] else [])
      + TableColumns(rows[1..], normalize, table)
  }

  lemma {:induction false} GroupedColumns(rows: seq<ColumnRow>, normalize: string -> string, table: string)
    requires ReflectAll(rows, normalize).Success?
    ensures ValuesOf(ReflectAll(rows, normalize).value, TableOf, ColumnOf, table) == TableColumns(rows, normalize, table)
    decreases |rows|
  {
    if |rows| > 0 {
      var pairs := ReflectAll(rows, normalize).value;
      assert ReflectAll(rows[1..], normalize).value == pairs[1..];
      GroupedColumns(rows[1..], normalize, table);
    }
  }

  /** Each table of the result is a table some row names, and it holds the
      columns of exactly its rows, in row order; every table a row names is
      in the result. */
  lemma ColumnsByTable(schema: Option<string>, rows: seq<ColumnRow>, normalize: string -> string)
    requires GetMultiColumns(schema, rows, normalize).Success?
    ensures var out := GetMultiColumns(schema, rows, normalize).value;
            forall i :: 0 <= i < |out| ==>
              out[i].1 == TableColumns(rows, normalize, out[i].0.1) && out[i].1 != []
    ensures var out := GetMultiColumns(schema, rows, normalize).value;
            forall j :: 0 <= j < |rows| ==> exists i :: 0 <= i < |out| && out[i].0 == (schema, normalize(rows[j].tableName))
  {
    var pairs := ReflectAll(rows, normalize).value;
    var m := Group(pairs, TableOf, ColumnOf);
    var out := GetMultiColumns(schema, rows, normalize).value;
    forall i | 0 <= i < |out|
      ensures out[i].1 == TableColumns(rows, normalize, out[i].0.1) && out[i].1 != []
    {
      GetAt(m, i);
      GroupGet(pairs, TableOf, ColumnOf, m[i].0);
      GroupedColumns(rows, normalize, m[i].0);
    }
    forall j | 0 <= j < |rows|
      ensures exists i :: 0 <= i < |out| && out[i].0 == (schema, normalize(rows[j].tableName))
    {
      var t := normalize(rows[j].tableName);
      assert TableOf(pairs[j]) == Some(t);
      FoldByKeys([], pairs, TableOf, AppendStep(ColumnOf), t);
      assert t in Keys(m);
      var i :| 0 <= i < |m| && Keys(m)[i] == t;
      assert out[i].0 == (schema, t);
    }
  }

  /** `columns.items()` order: every table the rows name, once, in the order
      of the row that names it first. */
  lemma ColumnTableOrder(schema: Option<string>, rows: seq<ColumnRow>, normalize: string -> string)
    requires GetMultiColumns(schema, rows, normalize).Success?
    ensures var out := GetMultiColumns(schema, rows, normalize).value;
            var tables := FirstKeys([], rows, RowTable(normalize));
            OncePerNamedKey(tables, rows, RowTable(normalize))
            && |out| == |tables| && forall i :: 0 <= i < |out| ==> out[i].0 == (schema, tables[i])
  {
    var pairs := ReflectAll(rows, normalize).value;
    var m := Group(pairs, TableOf, ColumnOf);
    var out := GetMultiColumns(schema, rows, normalize).value;
    FoldByKeyOrder([], pairs, TableOf, AppendStep(ColumnOf));
    assert Keys<string, seq<ReflectedColumn>>([]) == [];
    FirstKeysAlike([], pairs, TableOf, rows, RowTable(normalize));
    FirstKeysSpec(rows, RowTable(normalize));
    assert forall i :: 0 <= i < |out| ==> out[i].0 == (schema, m[i].0) && m[i].0 == Keys(m)[i];
  }
}
