/** The decisions behind the catalog queries of the dialect: which object
    types `_all_objects_query` (sqlalchemy_tibero/base.py:1165-1222) and
    `_table_options_query` (base.py:1533-1585) select, the filter-name
    parameters (base.py:1511-1516), whether materialized views must be
    fetched first (base.py:1231-1259), the object list `get_multi_columns`
    uses (base.py:1789-1799) and `denormalize_schema_name` (base.py:1129-1135).
    A query is modelled as the record of its filters, and running it as
    filtering a list of catalog objects. */
module Queries {
  import opened Wrappers
  import opened OrderedMaps

  /** The flags of `ObjectKind`; a kind is the set of its flags. */
  datatype Kind = TableKind | ViewKind | MatViewKind

  /** `ObjectKind.ANY`. */
  const AnyKind: set<Kind> := {TableKind, ViewKind, MatViewKind}

  /** `ObjectScope`: DEFAULT, TEMPORARY, or ANY (both). */
  datatype Scope = DefaultScope | TemporaryScope | AnyScope

  // ---------------------------------------------------------------------------
  // Names

  /** A schema name with the `quote` attribute of a `quoted_name`, None for a plain string. */
  datatype SchemaName = SchemaName(text: string, quote: Option<bool>)

  /** An unquoted "public" is the PUBLIC schema; every other name is denormalized. */
  function DenormalizeSchemaName(name: SchemaName, denormalize: string -> string): (r: string)
    ensures name.quote.None? && name.text == "public" ==> r == "PUBLIC"
    ensures name.quote.Some? || name.text != "public" ==> r == denormalize(name.text)
  {
    if name.quote.None? && name.text == "public" then "PUBLIC" else denormalize(name.text)
  }

  /** `_prepare_filter_names`: whether to filter by name, and the denormalized names. */
  function PrepareFilterNames(filterNames: Option<seq<string>>, denormalize: string -> string)
    : (r: (bool, Option<seq<string>>))
    ensures r.0 <==> filterNames.Some? && |filterNames.value| > 0
    ensures r.1.Some? <==> r.0
    ensures r.0 ==> |r.1.value| == |filterNames.value|
                    && forall i :: 0 <= i < |filterNames.value| ==> r.1.value[i] == denormalize(filterNames.value[i])
  {
    if filterNames.Some? && |filterNames.value| > 0 then
      (true, Some(seq(|filterNames.value|, i requires 0 <= i < |filterNames.value| => denormalize(filterNames.value[i]))))
    else (false, None)
  }

  // ---------------------------------------------------------------------------
  // `_all_objects_query`

  datatype ObjectsQuery = ObjectsQuery(
    objectTypes: seq<string>,      // `object_type IN (...)`
    excludeMatViews: bool,         // `object_name NOT IN (:mat_views)`
    temporary: Option<string>,     // `temporary = ...`
    filterByNames: bool)           // `object_name IN (:filter_names)`

  /** The types named by a kind other than ANY. A materialized view is also
      listed as a TABLE, so its own type is only asked for without TABLE. */
  function ObjectTypes(kind: set<Kind>): (types: seq<string>)
    ensures "VIEW" in types <==> ViewKind in kind
    ensures "MATERIALIZED VIEW" in types <==> MatViewKind in kind && TableKind !in kind
    ensures "TABLE" in types <==> TableKind in kind
    ensures forall t :: t in types ==> t in {"TABLE", "VIEW", "MATERIALIZED VIEW"}
  {
    (if ViewKind in kind then ["VIEW"] else [])
    + (if MatViewKind in kind && TableKind !in kind then ["MATERIALIZED VIEW"] else [])
    + (if TableKind in kind then ["TABLE"] else [])
  }

  /** The temporary filter of a scope. */
  function TemporaryFilter(scope: Scope): (t: Option<string>)
    ensures scope == DefaultScope ==> t == Some("N")
    ensures scope == TemporaryScope ==> t == Some("Y")
    ensures scope == AnyScope ==> t == None
  {
    match scope
    case DefaultScope => Some("N")
    case TemporaryScope => Some("Y")
    case AnyScope => None
  }

  function AllObjectsQuery(kind: set<Kind>, scope: Scope, hasFilterNames: bool, hasMatViews: bool)
    : (q: ObjectsQuery)
    ensures kind == AnyKind ==> q.objectTypes == ["TABLE", "VIEW"]
    ensures kind != AnyKind ==> q.objectTypes == ObjectTypes(kind)
    ensures q.excludeMatViews <==> kind != AnyKind && TableKind in kind && MatViewKind !in kind && hasMatViews
    ensures !("TABLE" in q.objectTypes && "MATERIALIZED VIEW" in q.objectTypes)
    ensures q.temporary == TemporaryFilter(scope)
    ensures q.filterByNames == hasFilterNames
  {
    if kind == AnyKind then
      ObjectsQuery(["TABLE", "VIEW"], false, TemporaryFilter(scope), hasFilterNames)
    else
      ObjectsQuery(ObjectTypes(kind), TableKind in kind && hasMatViews && MatViewKind !in kind,
                   TemporaryFilter(scope), hasFilterNames)
  }

  /** One row of ALL_OBJECTS for the owner. A materialized view has two: one
      of type TABLE and one of type MATERIALIZED VIEW. */
  datatype CatalogObject = CatalogObject(name: string, objectType: string, temporary: string)

  predicate Selects(q: ObjectsQuery, o: CatalogObject, matViews: seq<string>, filterNames: seq<string>) {
    && o.objectType in q.objectTypes
    && (q.excludeMatViews ==> o.name !in matViews)
    && (q.temporary.Some? ==> o.temporary == q.temporary.value)
    && (q.filterByNames ==> o.name in filterNames)
  }

  /** The names the query returns, in catalog order. */
  function RunObjectsQuery(q: ObjectsQuery, catalog: seq<CatalogObject>, matViews: seq<string>,
                           filterNames: seq<string>): (names: seq<string>)
    ensures |names| <= |catalog|
    ensures forall n :: n in names <==> exists o :: o in catalog && Selects(q, o, matViews, filterNames) && o.name == n
    decreases |catalog|
  {
    if |catalog| == 0 then []
    else
      var rest := RunObjectsQuery(q, catalog[1..], matViews, filterNames);
      assert forall o :: o in catalog <==> o == catalog[0] || o in catalog[1..];
      (if Selects(q, catalog[0], matViews, filterNames) then [catalog[0].name] else []) + rest
  }

  /** The key that picks out the objects a query selects. */
  function Selected(q: ObjectsQuery, matViews: seq<string>, filterNames: seq<string>): CatalogObject -> Option<bool> {
    (o: CatalogObject) => if Selects(q, o, matViews, filterNames) then Some(true) else None
  }

  /** The names of some objects, in order. */
  function ObjectNames(objs: seq<CatalogObject>): (names: seq<string>)
    ensures |names| == |objs| && forall j :: 0 <= j < |objs| ==> names[j] == objs[j].name
  {
    seq(|objs|, j requires 0 <= j < |objs| => objs[j].name)
  }

  /** Running a query filters the catalog: the selected objects' names, each
      once per catalog row and in catalog order. */
  lemma {:induction false} RunObjectsQueryFilter(q: ObjectsQuery, catalog: seq<CatalogObject>, matViews: seq<string>,
                                                 filterNames: seq<string>)
    ensures RunObjectsQuery(q, catalog, matViews, filterNames)
            == ObjectNames(Select(catalog, Selected(q, matViews, filterNames), true))
    decreases |catalog|
  {
    if |catalog| > 0 {
      var key := Selected(q, matViews, filterNames);
      var rest := Select(catalog[1..], key, true);
      RunObjectsQueryFilter(q, catalog[1..], matViews, filterNames);
      var head := if key(catalog[0]) == Some(true) then [catalog[0]] else [];
      assert Select(catalog, key, true) == head + rest;
      assert ObjectNames(head + rest) == ObjectNames(head) + ObjectNames(rest);
    }
  }

  /** The two rows of one materialized view are never both selected. */
  lemma MatViewRowsNotBoth(q: ObjectsQuery, name: string, temporary: string, matViews: seq<string>,
                           filterNames: seq<string>, kind: set<Kind>, scope: Scope, hasFilterNames: bool,
                           hasMatViews: bool)
    requires q == AllObjectsQuery(kind, scope, hasFilterNames, hasMatViews)
    ensures !(Selects(q, CatalogObject(name, "TABLE", temporary), matViews, filterNames)
              && Selects(q, CatalogObject(name, "MATERIALIZED VIEW", temporary), matViews, filterNames))
  {
  }

  /** Asking for tables but not materialized views, with materialized views
      present, leaves out the TABLE rows of the materialized views. */
  lemma MatViewTablesExcluded(kind: set<Kind>, scope: Scope, hasFilterNames: bool, matViews: seq<string>,
                              o: CatalogObject, filterNames: seq<string>)
    requires kind != AnyKind && TableKind in kind && MatViewKind !in kind
    requires NeedsMatViews(kind) && HasMatViews(kind, matViews)
    requires o.name in matViews
    ensures !Selects(AllObjectsQuery(kind, scope, hasFilterNames, HasMatViews(kind, matViews)), o, matViews, filterNames)
  {
  }

  /** Materialized view names are fetched only when tables but not
      materialized views are asked for. */
  predicate NeedsMatViews(kind: set<Kind>) {
    TableKind in kind && MatViewKind !in kind
  }

  /** `has_mat_views`: the fetch happened and found some. */
  function HasMatViews(kind: set<Kind>, matViews: seq<string>): (b: bool)
    ensures b ==> NeedsMatViews(kind)
    ensures NeedsMatViews(kind) && |matViews| > 0 ==> b
  {
    NeedsMatViews(kind) && |matViews| > 0
  }

  /** `_get_all_objects`: the names of the selected objects. `matViews` is
      what `get_materialized_view_names` returns; it is only consulted when
      `NeedsMatViews`. */
  function GetAllObjects(kind: set<Kind>, scope: Scope, filterNames: Option<seq<string>>, matViews: seq<string>,
                         catalog: seq<CatalogObject>, denormalize: string -> string): (names: seq<string>)
    ensures forall n :: n in names ==>
              exists o :: o in catalog && o.name == n
                          && Selects(AllObjectsQuery(kind, scope, PrepareFilterNames(filterNames, denormalize).0,
                                                     HasMatViews(kind, matViews)),
                                     o, matViews, PrepareFilterNames(filterNames, denormalize).1.GetOr([]))
    ensures forall o :: o in catalog
                        && Selects(AllObjectsQuery(kind, scope, PrepareFilterNames(filterNames, denormalize).0,
                                                   HasMatViews(kind, matViews)),
                                   o, matViews, PrepareFilterNames(filterNames, denormalize).1.GetOr([]))
                        ==> o.name in names
    ensures names == ObjectNames(Select(catalog, Selected(AllObjectsQuery(kind, scope, PrepareFilterNames(filterNames, denormalize).0,
                                                                          HasMatViews(kind, matViews)),
                                                          matViews, PrepareFilterNames(filterNames, denormalize).1.GetOr([])),
                                        true))
  {
    var (hasFilterNames, names) := PrepareFilterNames(filterNames, denormalize);
    var q := AllObjectsQuery(kind, scope, hasFilterNames, HasMatViews(kind, matViews));
    RunObjectsQueryFilter(q, catalog, matViews, names.GetOr([]));
    RunObjectsQuery(q, catalog, matViews, names.GetOr([]))
  }

  /** The objects `get_multi_columns` reads: the denormalized filter names
      themselves when names are given for any kind and any scope, and
      otherwise what `_get_all_objects` finds. */
  function ColumnObjects(kind: set<Kind>, scope: Scope, filterNames: Option<seq<string>>,
                         allObjects: seq<string>, denormalize: string -> string): (names: seq<string>)
    ensures filterNames.Some? && |filterNames.value| > 0 && kind == AnyKind && scope == AnyScope ==>
              names == PrepareFilterNames(filterNames, denormalize).1.value
    ensures !(filterNames.Some? && |filterNames.value| > 0 && kind == AnyKind && scope == AnyScope) ==>
              names == allObjects
  {
    if filterNames.Some? && |filterNames.value| > 0 && kind == AnyKind && scope == AnyScope then
      PrepareFilterNames(filterNames, denormalize).1.value
    else allObjects
  }

  // ---------------------------------------------------------------------------
  // `_table_options_query`

  datatype DurationFilter = NoDurationFilter | DurationIsNull | DurationIsNotNull
  datatype MatViewFilter = NoMatViewFilter | NotInMatViews | InMatViews

  datatype OptionsQuery = OptionsQuery(filterByNames: bool, duration: DurationFilter, matViews: MatViewFilter)

  function TableOptionsQuery(kind: set<Kind>, scope: Scope, hasFilterNames: bool, hasMatViews: bool)
    : (q: OptionsQuery)
    ensures q.filterByNames == hasFilterNames
    ensures q.duration == DurationIsNull <==> scope == DefaultScope
    ensures q.duration == DurationIsNotNull <==> scope == TemporaryScope
    ensures q.matViews == NotInMatViews <==> hasMatViews && TableKind in kind && MatViewKind !in kind
    ensures q.matViews == InMatViews <==> TableKind !in kind && MatViewKind in kind
  {
    OptionsQuery(
      hasFilterNames,
      match scope
      case DefaultScope => DurationIsNull
      case TemporaryScope => DurationIsNotNull
      case AnyScope => NoDurationFilter,
      if hasMatViews && TableKind in kind && MatViewKind !in kind then NotInMatViews
      else if TableKind !in kind && MatViewKind in kind then InMatViews
      else NoMatViewFilter)
  }

  /** One row of ALL_TABLES for the owner; `duration` is None for a permanent table. */
  datatype CatalogTable = CatalogTable(name: string, duration: Option<string>)

  predicate SelectsTable(q: OptionsQuery, t: CatalogTable, matViews: seq<string>, filterNames: seq<string>) {
    && (q.filterByNames ==> t.name in filterNames)
    && (q.duration == DurationIsNull ==> t.duration.None?)
    && (q.duration == DurationIsNotNull ==> t.duration.Some?)
    && (q.matViews == NotInMatViews ==> t.name !in matViews)
    && (q.matViews == InMatViews ==> t.name in matViews)
  }

  /** The options query for tables only never returns a materialized view it
      knows of, and for materialized views only returns nothing else. */
  lemma OptionsMatViewFilters(kind: set<Kind>, scope: Scope, hasFilterNames: bool, matViews: seq<string>,
                              t: CatalogTable, filterNames: seq<string>)
    ensures var q := TableOptionsQuery(kind, scope, hasFilterNames, HasMatViews(kind, matViews));
            SelectsTable(q, t, matViews, filterNames) ==>
              (NeedsMatViews(kind) ==> t.name !in matViews)
              && (TableKind !in kind && MatViewKind in kind ==> t.name in matViews)
  {
  }
}
