/** The per-table assemblers that are not folds over constraint rows:
    `get_multi_table_options` (sqlalchemy_tibero/base.py:1588-1652),
    `get_multi_table_comment` (base.py:2019-2061), and `_value_or_raise`
    (base.py:1502-1509), which picks one table's value out of a multi-table
    result for the single-table reflection calls. */
module TableInfo {
  import opened Wrappers
  import opened Strings
  import opened Queries
  import opened OrderedMaps

  /** The table options dictionary: `tibero_compress` is present only for a
      compressed table, and holds its COMPRESS_FOR (possibly None). */
  datatype TableOptions = TableOptions(compress: Option<Option<string>>)

  /** `ReflectionDefaults.table_options()`. */
  const NoOptions: TableOptions := TableOptions(None)

  /** One row of the options query: table name, COMPRESSION, COMPRESS_FOR. */
  datatype OptionsRow = OptionsRow(tableName: string, compression: Option<string>, compressFor: Option<string>)

  function OptionsOf(row: OptionsRow): (o: TableOptions)
    ensures o.compress.Some? <==> row.compression == Some("ENABLED")
    ensures o.compress.Some? ==> o.compress.value == row.compressFor
  {
    if row.compression == Some("ENABLED") then TableOptions(Some(row.compressFor)) else NoOptions
  }

  /** Views are listed when views are asked for in a scope that includes the default one. */
  predicate ListsViews(kind: set<Kind>, scope: Scope) {
    ViewKind in kind && (scope == DefaultScope || scope == AnyScope)
  }

  /** The assignments `options[...] = ...` in the order they happen: first the
      rows of the options query (only run for tables or materialized views),
      then every view that passes the user's filter names, with the default. */
  function OptionAssignments(kind: set<Kind>, scope: Scope, filterNames: Option<seq<string>>,
                             rows: seq<OptionsRow>, viewNames: seq<string>, normalize: string -> string)
    : (pairs: seq<(string, TableOptions)>)
  {
    var tables := if TableKind in kind || MatViewKind in kind
                  then seq(|rows|, i requires 0 <= i < |rows| => (normalize(rows[i].tableName), OptionsOf(rows[i])))
                  else [];
    var views := if ListsViews(kind, scope) then ViewsListed(filterNames, viewNames) else [];
    tables + views
  }

  /** `if not filter_names or view in filter_names`. */
  function ViewsListed(filterNames: Option<seq<string>>, viewNames: seq<string>): (pairs: seq<(string, TableOptions)>)
    ensures forall p :: p in pairs ==> p.0 in viewNames && p.1 == NoOptions
    ensures forall v :: v in viewNames && (filterNames.None? || |filterNames.value| == 0 || v in filterNames.value)
              ==> (v, NoOptions) in pairs
    decreases |viewNames|
  {
    if |viewNames| == 0 then []
    else
      var rest := ViewsListed(filterNames, viewNames[1..]);
      var v := viewNames[0];
      assert forall w :: w in viewNames ==> w == v || w in viewNames[1..];
      if filterNames.None? || |filterNames.value| == 0 || v in filterNames.value then [(v, NoOptions)] + rest else rest
  }

  /** `options.items()`. */
  function GetMultiTableOptions(schema: Option<string>, kind: set<Kind>, scope: Scope, filterNames: Option<seq<string>>,
                                rows: seq<OptionsRow>, viewNames: seq<string>, normalize: string -> string)
    : (out: seq<((Option<string>, string), TableOptions)>)
    ensures var pairs := OptionAssignments(kind, scope, filterNames, rows, viewNames, normalize);
            (forall i :: 0 <= i < |out| ==> out[i].0.0 == schema && LastOf(pairs, out[i].0.1) == Some(out[i].1))
            && (forall a, b :: 0 <= a < b < |out| ==> out[a].0 != out[b].0)
            && (forall name :: LastOf(pairs, name).Some? <==> exists i :: 0 <= i < |out| && out[i].0.1 == name)
  {
    var pairs := OptionAssignments(kind, scope, filterNames, rows, viewNames, normalize);
    WithSchemaDict(schema, pairs);
    WithSchema(schema, DictOf(pairs))
  }

  /** A listed view always has the default options, whatever an options row
      of the same name said; without views, a table has the options of its
      last row. */
  lemma TableOptionsAssembled(schema: Option<string>, kind: set<Kind>, scope: Scope,
                              filterNames: Option<seq<string>>, rows: seq<OptionsRow>, viewNames: seq<string>,
                              normalize: string -> string, name: string)
    ensures var pairs := OptionAssignments(kind, scope, filterNames, rows, viewNames, normalize);
            Get(DictOf(pairs), name) == LastOf(pairs, name)
    ensures ListsViews(kind, scope) && name in viewNames
            && (filterNames.None? || |filterNames.value| == 0 || name in filterNames.value)
            ==> Get(DictOf(OptionAssignments(kind, scope, filterNames, rows, viewNames, normalize)), name) == Some(NoOptions)
  {
    var pairs := OptionAssignments(kind, scope, filterNames, rows, viewNames, normalize);
    DictOfGet(pairs, name);
    if ListsViews(kind, scope) && name in viewNames
       && (filterNames.None? || |filterNames.value| == 0 || name in filterNames.value) {
      var views := ViewsListed(filterNames, viewNames);
      var tables := pairs[..|pairs| - |views|];
      assert pairs == tables + views;
      LastOfViews(tables, views, name);
    }
  }

  /** When a key is in the trailing pairs and they all carry the same value, the last value is that one. */
  lemma {:induction false} LastOfViews(tables: seq<(string, TableOptions)>, views: seq<(string, TableOptions)>, name: string)
    requires (name, NoOptions) in views
    requires forall p :: p in views ==> p.1 == NoOptions
    ensures LastOf(tables + views, name) == Some(NoOptions)
    decreases |views|
  {
    var all := tables + views;
    var last := views[|views| - 1];
    assert all[|all| - 1] == last;
    if last.0 != name {
      var init := views[..|views| - 1];
      assert all[..|all| - 1] == tables + init;
      assert (name, NoOptions) in init by {
        var j :| 0 <= j < |views| && views[j] == (name, NoOptions);
        assert j < |views| - 1;
        assert init[j] == views[j];
      }
      LastOfViews(tables, init, name);
    }
  }

  // ---------------------------------------------------------------------------
  // Table comments

  /** The comment dictionary: `{"text": ...}`; the default is `{"text": None}`. */
  datatype TableComment = TableComment(text: Option<string>)

  /** The comment Oracle gives materialized views; it is not reported. */
  const MatViewCommentPrefix: string := "snapshot table for snapshot "

  function CommentOf(comment: Option<string>): (c: TableComment)
    ensures c.text.Some? <==> comment.Some? && !StartsWith(comment.value, MatViewCommentPrefix)
    ensures c.text.Some? ==> c.text == comment
  {
    if comment.Some? && !StartsWith(comment.value, MatViewCommentPrefix) then TableComment(comment)
    else TableComment(None)
  }

  /** One pair per comment row, in row order. */
  function GetMultiTableComment(schema: Option<string>, rows: seq<(string, Option<string>)>, normalize: string -> string)
    : (out: seq<((Option<string>, string), TableComment)>)
    ensures |out| == |rows|
    ensures forall i :: 0 <= i < |rows| ==> out[i] == ((schema, normalize(rows[i].0)), CommentOf(rows[i].1))
  {
    seq(|rows|, i requires 0 <= i < |rows| => ((schema, normalize(rows[i].0)), CommentOf(rows[i].1)))
  }

  /** A materialized view's generated comment is reported as no comment. */
  lemma MatViewCommentHidden(owner: string, name: string)
    ensures CommentOf(Some(MatViewCommentPrefix + owner + "." + name)) == TableComment(None)
  {
    assert (MatViewCommentPrefix + owner + "." + name)[..|MatViewCommentPrefix|] == MatViewCommentPrefix;
  }

  // ---------------------------------------------------------------------------
  // `_value_or_raise`

  /** The value of one table in a multi-table result (the last pair of that key
      wins, as in `dict(data)`), or NoSuchTableError naming it. */
  function ValueOrRaise<V>(data: seq<((Option<string>, string), V)>, table: string, schema: Option<string>,
                           normalize: string -> string): (r: Result<V>)
    ensures r.Success? <==> exists i :: 0 <= i < |data| && data[i].0 == (schema, normalize(table))
    ensures r.Success? ==> LastOf(data, (schema, normalize(table))) == Some(r.value)
    ensures r.Failure? ==> r.error == NoSuchTableError(
              if schema.Some? && schema.value != "" then schema.value + "." + normalize(table) else normalize(table))
  {
    var t := normalize(table);
    LastOfPresent(data, (schema, t));
    match LastOf(data, (schema, t))
    case Some(v) => Success(v)
    case None => Failure(NoSuchTableError(if schema.Some? && schema.value != "" then schema.value + "." + t else t))
  }

  /** Every object of an `all_objects` assembler can be looked up. */
  lemma EmittedFound<V>(schema: Option<string>, allObjects: seq<string>, normalize: string -> string,
                        m: seq<(string, V)>, default: V, i: int)
    requires 0 <= i < |allObjects|
    ensures ValueOrRaise(Emit(schema, allObjects, normalize, m, default), allObjects[i], schema, normalize).Success?
  {
    assert Emit(schema, allObjects, normalize, m, default)[i].0 == (schema, normalize(allObjects[i]));
  }
}
