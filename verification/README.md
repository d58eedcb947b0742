# sqlalchemy-tibero dialect core, modelled in Dafny

This project models the decision and assembly logic of the SQLAlchemy dialect
for the Tibero database (`sqlalchemy_tibero/base.py`). It covers five areas:

- **Type rendering.** The DDL type compiler renders NUMBER, FLOAT, VARCHAR,
  RAW, INTERVAL and TIMESTAMP from optional precision, scale and length.
- **Column reflection.** Catalog column rows become column descriptors. This
  includes the type dispatch, the identity option text and computed columns.
- **Multi-object assemblers.** These cover columns, indexes, primary keys,
  foreign keys, unique and check constraints, table options and comments.
  All of them are written as folds over row sequences that keep insertion
  order (`ordered_maps.dfy`).
- **Catalog query decisions.** These are the filters `_all_objects_query` and
  `_table_options_query` put in place, filter-name preparation, batching by
  500, and synonym redirection.
- **SQL compilation.**
  - Emulating LIMIT/OFFSET with ROWNUM. Queries are evaluated over a row
    sequence with Tibero's ROWNUM semantics.
  - Collecting non-ANSI join conditions with `(+)` outer-join markers.
  - `FOR UPDATE`, identity and computed column DDL.
  - Substitution of the db-link placeholder before execution.

`normalize_name`, `denormalize_name`, the wrapped reflection function and
`connection.execute` appear as function parameters. Catalog rows are records
with `Option` fields, where `None` stands for SQL NULL. Python exceptions are
the `Failure` cases of `Wrappers.Result`, named after the exception classes.

The code is followed wherever it differs from the documented intent. Three
cases matter:

- **Column order.** `get_multi_columns` returns `columns.items()`. Its pairs
  therefore come in the order tables first appear in the rows, and only for
  tables that have rows, not one pair per `all_objects` name
  (`Columns.ColumnTableOrder`).
- **Quote flag.** The flag is set when the catalog name is *already* lower
  case (`Columns.ReflectColumn`).
- **`db_link` key.** `_handle_synonyms` reads a `db_link` key that the
  synonym query never selects. A synonym row therefore carries
  `dbLink: Option<string>`, and a missing key is a `KeyError`
  (`Synonyms.SynonymsWithoutLinkFail`).

## Model

| member | source | states |
|---|---|---|
| TypeCompiler.GenerateNumeric | sqlalchemy_tibero/base.py:161-204 | The function fails with ArgumentError(p, int(p / 0.30103)) exactly when a binary precision is required, the decimal precision is truthy and no binary precision is given. Otherwise, reading the rendered text back gives the name alone when there is no precision. With a precision it gives (p) or (p, s), and the scale appears only with a precision. |
| TypeCompiler.VisitNumeric | sqlalchemy_tibero/base.py:145-160 | FLOAT fails exactly when a decimal precision is given without a binary precision. When it succeeds, it renders FLOAT with the binary precision as its argument. BIGINT renders NUMBER(19) with the type's scale. |
| TypeCompiler.VisitVarchar | sqlalchemy_tibero/base.py:206-228 | The rendered name is N?VARCHAR2?. There are no arguments exactly when the length is falsy. Otherwise there is one argument: "len CHAR" for the non-national types, or the length itself for the N types. |
| TypeCompiler.VisitRaw | sqlalchemy_tibero/base.py:248-252 | This reads back as RAW, with the length as its only argument when the length is truthy. |
| TypeCompiler.VisitInterval | sqlalchemy_tibero/base.py:124-132 | The text is exactly "INTERVAL DAY TO SECOND" iff neither precision is given. Removing the (digits) sizes always gives that name back. Reading the text back recovers both precisions, each present exactly when it was given. |
| TypeCompiler.VisitTimestamp | sqlalchemy_tibero/base.py:137-143 | The text says WITH LOCAL TIME ZONE iff local_timezone is set. It says WITH TIME ZONE iff timezone is set and local_timezone is not. |
| CatalogTypes.ReflectType | sqlalchemy_tibero/base.py:1827-1868 | The reflected type is NULLTYPE exactly when the name is neither read with attributes nor a time-zone timestamp, and its size-stripped form is not in ischema_names. A looked-up type is the size-stripped name. A time-zone timestamp has timezone set iff the name contains "WITH TIME ZONE", and local_timezone set otherwise, so the name held "WITH LOCAL TIME ZONE". NUMBER gives INTEGER iff there is no precision and the scale is 0, and NUMBER with the catalog precision and scale otherwise. FLOAT gives DOUBLE PRECISION iff the precision is 126, REAL iff it is 63, and FLOAT with that binary precision otherwise. A character type keeps its name and takes the char_length as its length. |
| CatalogTypes.SizeIgnored | sqlalchemy_tibero/base.py:1858-1868 | A (digits) size after a looked-up type name does not change the reflected type. |
| CatalogTypes.RawRoundTrip | sqlalchemy_tibero/base.py:248-252 | Reflecting a rendered RAW(n) gives RAW back. |
| CatalogTypes.IntervalRoundTrip | sqlalchemy_tibero/base.py:124-132 | Reflecting a rendered INTERVAL DAY(d) TO SECOND(s) gives INTERVAL DAY TO SECOND back. |
| CatalogTypes.TimestampRoundTrip | sqlalchemy_tibero/base.py:137-143 | Each of the three timestamp renderings reflects back with its own time-zone flags. |
| Identity.ParseIdentityOptions | sqlalchemy_tibero/base.py:1910-1945 | When parsing succeeds, always holds iff the first stripped comma token is "ALWAYS", and tibero_on_null holds iff default_on_null is "YES". A failure is always a ValueError. |
| Identity.ApplyPart | sqlalchemy_tibero/base.py:1927-1929 | A part without exactly one ':' fails the tuple unpacking with a ValueError. A part with exactly one ':' applies the option named by the text before it, with the stripped text after it as the value. |
| Identity.ParseRendered | sqlalchemy_tibero/base.py:1910-1945 | Parsing the catalog's IDENTITY_OPTIONS text recovers every field it holds. START WITH, INCREMENT BY, MAX_VALUE, MIN_VALUE and CACHE_SIZE come back as integers, and CYCLE_FLAG and ORDER_FLAG as flags. SCALE_FLAG, EXTEND_FLAG, SESSION_FLAG and KEEP_VALUE are ignored. |
| Identity.UnknownIgnored | sqlalchemy_tibero/base.py:1931-1944 | An option that contains none of the known keys leaves the identity unchanged. |
| Columns.ReflectColumn | sqlalchemy_tibero/base.py:1820-1900 | Reflection fails only when the identity options do not parse. Otherwise it fixes the name, type, nullable, quote and comment. A computed column exists iff virtual_column is "Y", and its text is the data default. An identity exists iff there are identity options. A column that is computed or an identity has no default, and any other column keeps the data default. |
| Columns.IdentityColumnRoundTrip | sqlalchemy_tibero/base.py:1877-1883 | An identity column whose catalog options are rendered from some identity comes back with that identity and no default. |
| Columns.GetMultiColumns | sqlalchemy_tibero/base.py:1770-1908 | The call succeeds iff every row reflects. On success every key carries the requested schema and no key appears twice. |
| Columns.ColumnsByTable | sqlalchemy_tibero/base.py:1820-1908 | Each table's entry is the non-empty list of its own rows' columns, in row order. Every row's table has an entry. |
| Columns.ColumnTableOrder | sqlalchemy_tibero/base.py:1820-1908 | The result has one entry per table the rows name, in the order of the row that names it first, as `columns.items()` gives them. |
| CatalogRows.PkIndexNames | sqlalchemy_tibero/base.py:2166-2190 | The excluded set holds, for each primary-key row, the index name when it is present and differs from the constraint name, and the constraint name otherwise. |
| CatalogRows.KeptIndexRows | sqlalchemy_tibero/base.py:2191-2201 | The kept rows are index rows whose name is not in the primary-key set, and every index row whose name is not in that set is kept. |
| CatalogRows.KeptIndexRowsFilter | sqlalchemy_tibero/base.py:2191-2201 | The kept rows are exactly the index rows outside the primary-key set, each once and in query order. |
| CatalogRows.PkIndexExcluded | sqlalchemy_tibero/base.py:2166-2201 | No primary key's own index survives the exclusion. |
| Indexes.GetMultiIndexes | sqlalchemy_tibero/base.py:2204-2279 | The call fails with AssertionError iff some kept row breaks the DESCEND asserts. Otherwise it gives one pair per all_objects name, keyed (schema, normalize(name)) in that order. |
| Indexes.IndexShape | sqlalchemy_tibero/base.py:2228-2269 | An index built from its rows has one column_names entry per row, in order, with None exactly at expression positions. Its expressions, once present, agree with column_names wherever it is not None. Each descending expression has a ("desc",) column_sorting entry. The first row fixes the name and uniqueness. |
| Indexes.IndexesAssembled | sqlalchemy_tibero/base.py:2204-2279 | Every index of every object is the index built from exactly that object's rows for that index, in row order. |
| Indexes.IndexesComplete | sqlalchemy_tibero/base.py:2204-2279 | Each object gets one index per distinct index name among its kept rows, in first-row order, and each is the index built from that name's rows. |
| Constraints.GetMultiPkConstraint | sqlalchemy_tibero/base.py:2400-2443 | This gives one pair per all_objects name, keyed (schema, normalize(name)) in that order. |
| Constraints.PkAssembled | sqlalchemy_tibero/base.py:2421-2443 | Each object's primary key is named by its first "P" row and lists the local columns of all its "P" rows in order. An object without such rows gets the empty default. |
| Constraints.GetMultiForeignKeys | sqlalchemy_tibero/base.py:2467-2599 | The call fails with AssertionError iff some "R" row has no constraint name. Otherwise it gives one pair per all_objects name, keyed (schema, normalize(name)) in that order. |
| Constraints.ForeignKeysAssembled | sqlalchemy_tibero/base.py:2494-2550 | Every foreign key is the one its own rows describe. The first row fixes the referred table, schema and ondelete, and every row adds its local and remote column in order. |
| Constraints.ForeignKeysComplete | sqlalchemy_tibero/base.py:2494-2550 | Each object gets one foreign key per distinct "R" constraint name among its rows, in first-row order, and each is the one that name's rows describe. |
| Constraints.MissingRemoteTableSkipped | sqlalchemy_tibero/base.py:2504-2523 | A foreign-key row without a remote table changes nothing in the result. |
| Constraints.GetMultiUniqueConstraints | sqlalchemy_tibero/base.py:2618-2688 | The call fails with AssertionError iff some "U" row has no name. Otherwise it gives one pair per all_objects name, keyed (schema, normalize(name)) in that order. |
| Constraints.UniqueAssembled | sqlalchemy_tibero/base.py:2645-2688 | Every unique constraint lists the columns of all its rows in order. It is marked duplicates_index iff an index of the same name survives the primary-key exclusion. |
| Constraints.UniqueComplete | sqlalchemy_tibero/base.py:2645-2688 | Each object gets one unique constraint per distinct "U" constraint name among its rows, in first-row order. Each is named by its first row and lists the local columns of all that name's rows. |
| Constraints.GetMultiCheckConstraints | sqlalchemy_tibero/base.py:2760-2815 | The call fails with TypeError iff a considered named row has no condition and include_all is off. Otherwise it gives one pair per all_objects name, keyed (schema, normalize(name)) in that order. |
| Constraints.ChecksAssembled | sqlalchemy_tibero/base.py:2779-2815 | Every object gets the kept check constraints of its rows, in row order. |
| Constraints.NotNullSuppressed | sqlalchemy_tibero/base.py:2779-2797 | Unless include_all is set, no reflected check condition matches `..+?. IS NOT NULL$`. |
| Constraints.QuotedNotNullMatches | sqlalchemy_tibero/base.py:2779 | The condition the catalog records for a NOT NULL column, `"col" IS NOT NULL`, matches the pattern and is therefore dropped. |
| Constraints.NotNullSubject | sqlalchemy_tibero/base.py:2779 | `subject IS NOT NULL`, with or without a final line break, matches `..+?. IS NOT NULL$` exactly when the subject has at least three characters and no line break. |
| Queries.DenormalizeSchemaName | sqlalchemy_tibero/base.py:1129-1135 | An unquoted "public" becomes PUBLIC, and every other name is denormalized. |
| Queries.PrepareFilterNames | sqlalchemy_tibero/base.py:1511-1516 | Filtering by names happens iff the list is non-empty. In that case the parameters are the denormalized names, one per name and in order. |
| Queries.ObjectTypes | sqlalchemy_tibero/base.py:1181-1209 | VIEW is included iff VIEW is in the kind. MATERIALIZED VIEW is included iff MATERIALIZED_VIEW is in the kind and TABLE is not. TABLE is included iff TABLE is in the kind. |
| Queries.AllObjectsQuery | sqlalchemy_tibero/base.py:1165-1222 | Kind ANY selects TABLE and VIEW. The mat-view exclusion applies iff TABLE is in the kind, MATERIALIZED_VIEW is not, and materialized views exist. TABLE and MATERIALIZED VIEW are never selected together. The temporary filter follows the scope. |
| Queries.TemporaryFilter | sqlalchemy_tibero/base.py:1211-1215 | Scope DEFAULT filters temporary='N', TEMPORARY filters 'Y', and ANY adds no filter. |
| Queries.RunObjectsQuery | sqlalchemy_tibero/base.py:1165-1222 | The names returned are exactly those of the catalog objects the query's filters select. |
| Queries.RunObjectsQueryFilter | sqlalchemy_tibero/base.py:1165-1222 | The query returns the selected catalog objects' names, each once per catalog row and in catalog order. |
| Queries.GetAllObjects | sqlalchemy_tibero/base.py:1231-1260 | A name is returned iff it belongs to a catalog object selected by the query built from the prepared filter names and the mat-view lookup. The names come in catalog order. |
| Queries.HasMatViews | sqlalchemy_tibero/base.py:1239-1250 | The materialized views are fetched only when the kind needs them. A non-empty list is always seen. |
| Queries.ColumnObjects | sqlalchemy_tibero/base.py:1789-1799 | With filter names and kind and scope both ANY, the objects are the denormalized filter names themselves. Otherwise they are the all_objects list. |
| Queries.TableOptionsQuery | sqlalchemy_tibero/base.py:1534-1585 | The DURATION filter and the materialized-view NOT IN / IN filter follow the scope and kind. The name filter applies iff filter names were given. |
| TableInfo.OptionsOf | sqlalchemy_tibero/base.py:1640-1645 | tibero_compress is present iff COMPRESSION is ENABLED, and it holds COMPRESS_FOR. |
| TableInfo.ViewsListed | sqlalchemy_tibero/base.py:1646-1650 | Every listed view that passes the filter names gets the default options. Nothing else is added. |
| TableInfo.TableOptionsAssembled | sqlalchemy_tibero/base.py:1588-1652 | A name's options are those of its last assignment. A listed view that passes the filter ends with the default options. |
| TableInfo.GetMultiTableOptions | sqlalchemy_tibero/base.py:1588-1652 | Every key carries the requested schema and appears once. A name has an entry iff some options row or listed view assigns it options, and the entry holds its last assignment. |
| TableInfo.CommentOf | sqlalchemy_tibero/base.py:2049-2058 | A comment is kept iff it is present and does not start with the materialized-view marker. |
| TableInfo.GetMultiTableComment | sqlalchemy_tibero/base.py:2019-2061 | This gives one pair per row, keyed (schema, normalize(name)), with the kept comment. |
| TableInfo.ValueOrRaise | sqlalchemy_tibero/base.py:1502-1509 | The lookup succeeds iff the key (schema, normalize(table)) is present. It returns the key's value. Otherwise it raises NoSuchTableError, naming "schema.table" when a schema is given. |
| TableInfo.EmittedFound | sqlalchemy_tibero/base.py:1502-1509 | Looking up any all_objects name in an assembler's output never raises. |
| Batches.Chunks | sqlalchemy_tibero/base.py:1670-1689 | Every batch holds between 1 and the batch size names. |
| Batches.ChunksFlatten | sqlalchemy_tibero/base.py:1670-1689 | Concatenating the batches gives all_objects back, in order. |
| Batches.ChunkCount | sqlalchemy_tibero/base.py:1670-1689 | There are ceil(n / 500) batches. |
| Batches.RunBatches | sqlalchemy_tibero/base.py:1670-1689 | One execution happens per batch of at most 500 names. The batches concatenate to all_objects, and the rows are the executions' rows in batch order. Nothing is executed for an empty all_objects. |
| Synonyms.RowError | sqlalchemy_tibero/base.py:1284-1287 | A row without a db_link key raises KeyError. A db_link that does not split into exactly two parts on '@' raises ValueError. |
| Synonyms.GroupSynonyms | sqlalchemy_tibero/base.py:1283-1292 | Grouping fails with the first row's error iff some row is bad. Otherwise it gives a group per (db_link, owner), and there are groups iff there are rows. |
| Synonyms.GroupsComplete | sqlalchemy_tibero/base.py:1283-1292 | There is one group per distinct (db_link, owner) of the rows, in first-row order. Each group maps the targets of exactly its own rows. |
| Synonyms.SynonymMapping | sqlalchemy_tibero/base.py:1288-1292 | A group maps each of its targets once, in first-row order, to the synonym name of the last row for that target. |
| Synonyms.Remap | sqlalchemy_tibero/base.py:1305-1308 | Every returned key is renamed to its synonym, with the requested schema. An unknown table name raises KeyError. |
| Synonyms.GroupReport | sqlalchemy_tibero/base.py:1295-1308 | One group's call is made with the group's owner, db link and targets. Every key it reports back is one of that group's synonyms, under the requested schema. |
| Synonyms.CallGroupsSucceed | sqlalchemy_tibero/base.py:1295-1308 | Calling the groups succeeds iff every group's call and remapping succeeds. |
| Synonyms.CallGroupsPairs | sqlalchemy_tibero/base.py:1295-1308 | On success the result holds exactly the pairs some group's call reports, after renaming. |
| Synonyms.HandleSynonyms | sqlalchemy_tibero/base.py:1269-1309 | With the flag off, or with no synonyms, the wrapped function is called directly. A bad synonym row fails with its error. Otherwise every output key carries the requested schema. |
| Synonyms.SynonymCalls | sqlalchemy_tibero/base.py:1269-1309 | With synonyms to resolve and no bad row, the call succeeds iff every group's call succeeds. The result then has each reported key once, holding the value of the last pair reported under it in group order. Every reported key is present, and every key is a synonym of some group. |
| Synonyms.SynonymsWithoutLinkFail | sqlalchemy_tibero/base.py:1275-1287 | Synonym rows as the synonym query returns them, without db_link, always make the call fail with KeyError("db_link"). |
| Synonyms.SynonymReported | sqlalchemy_tibero/base.py:1269-1309 | A single synonym whose target the wrapped function reports yields the wrapped value under (schema, normalize(synonym name)). |
| Joins.MarkOuter | sqlalchemy_tibero/base.py:358-367 | Marking keeps the shape of the expression and its operators. |
| Joins.UnmarkMark | sqlalchemy_tibero/base.py:358-372 | Removing the (+) markers after marking gives the unmarked condition. A condition without markers is recovered exactly. |
| Joins.MarksRightSideOnly | sqlalchemy_tibero/base.py:353-367 | Every (+) marker added to an unmarked condition lands on a column of a right-side table. |
| Joins.ComparisonMarked | sqlalchemy_tibero/base.py:358-367 | In a comparison of two columns, the left column is marked if its table is on the right side. Failing that, the right column is marked if its table is. Otherwise nothing is marked. |
| Joins.VisitJoin | sqlalchemy_tibero/base.py:352-380 | Collection succeeds iff every grouping wraps a join. The first clause is the join's own on-clause. It is unchanged for an inner join, and for an outer one it is marked against the right side's tables. |
| Joins.VisitJoinOrder | sqlalchemy_tibero/base.py:352-380 | With markers removed, the clauses collected are the on-clauses in pre-order: the join's own, then the left side's, then the right side's. |
| Joins.NonAnsiJoinWhere | sqlalchemy_tibero/base.py:349-389 | The result is no WHERE clause iff no FROM element is a join. Collection fails iff some join holds a grouping of a non-join. Otherwise, with markers removed, the clauses are the on-clauses of every join element in FROM order, each join in pre-order. |
| Joins.CollectOrder | sqlalchemy_tibero/base.py:349-386 | The collected clauses, with markers removed, are the join elements' on-clauses in FROM order. Other FROM elements contribute none. |
| Joins.RenderLists | sqlalchemy_tibero/base.py:329-347 | A non-ANSI join renders as its leaf tables joined by ", ". |
| Joins.OuterColumnRendered | sqlalchemy_tibero/base.py:391-392 | A right-side column in an outer-join comparison renders with a trailing "(+)". |
| RowLimit.Translate | sqlalchemy_tibero/base.py:495-641 | A statement is unchanged unless emulation applies. When it applies, the result is marked and carries no limit, offset or fetch. Without an offset there is one wrap with ROWNUM <= limit. With an offset, an inner wrap labels ROWNUM <= limit + offset and an outer one keeps ora_rn > offset. |
| RowLimit.TranslatedRows | sqlalchemy_tibero/base.py:498-639 | Under ROWNUM semantics the translated query returns exactly rows offset+1 .. offset+limit of the table, or every row after the offset when there is no limit. |
| RowLimit.RownumAboveEmpty | sqlalchemy_tibero/base.py:594-637 | A bare ROWNUM > k with k >= 1 returns no rows. This is why the offset needs a labelled inner query. |
| RowLimit.RownumAtMostTakes | sqlalchemy_tibero/base.py:575-592 | ROWNUM <= m keeps the first m rows in order. A labelling wrap numbers them from 1. |
| RowLimit.ForUpdateClause | sqlalchemy_tibero/base.py:649-665 | A subquery gets no clause, and any other statement gets one starting with " FOR UPDATE". |
| RowLimit.ForUpdateRoundTrip | sqlalchemy_tibero/base.py:649-665 | Reading a rendered FOR UPDATE clause back recovers the OF names, NOWAIT and SKIP LOCKED. |
| Ddl.VisitComputedColumn | sqlalchemy_tibero/base.py:819-830 | A persisted (stored) computed column is refused with CompileError. Any other starts with "GENERATED ALWAYS AS (". |
| Ddl.ComputedRoundTrip | sqlalchemy_tibero/base.py:819-830 | Reading back a rendered computed column recovers the expression and the VIRTUAL flag. |
| Ddl.GetIdentityOptions | sqlalchemy_tibero/base.py:803-817 | With an order, the text ends in ORDER or NOORDER. Non-empty, stripped option text in Tibero spelling is kept as it is: alone without an order, and followed by a space and the order word with one. The result never contains NO MINVALUE, NO MAXVALUE or NO CYCLE. Text with any number of generic options is covered by Ddl.IdentityOptionsRespelled. |
| Ddl.IdentityOptionsRewritten | sqlalchemy_tibero/base.py:803-817 | In stripped option text that is otherwise in Tibero spelling, NO MINVALUE becomes NOMINVALUE, NO MAXVALUE becomes NOMAXVALUE and NO CYCLE becomes NOCYCLE. The text around it is kept. |
| Ddl.RewriteMin | sqlalchemy_tibero/base.py:805-807 | NO MINVALUE after Tibero-spelled text becomes NOMINVALUE under the three replacements. The text before it is kept, and the text after it is rewritten as on its own, whatever options it holds. |
| Ddl.RewriteMax | sqlalchemy_tibero/base.py:805-807 | NO MAXVALUE after Tibero-spelled text becomes NOMAXVALUE under the three replacements. The text before it is kept, and the text after it is rewritten as on its own, whatever options it holds. |
| Ddl.RewriteCycle | sqlalchemy_tibero/base.py:805-807 | NO CYCLE after Tibero-spelled text becomes NOCYCLE under the three replacements. The text before it is kept, and the text after it is rewritten as on its own, whatever options it holds. |
| Ddl.RewriteAll | sqlalchemy_tibero/base.py:805-807 | Text holding any number of NO MINVALUE, NO MAXVALUE and NO CYCLE options, in any order, comes out as the same text with each option in its Tibero spelling (NOMINVALUE, NOMAXVALUE, NOCYCLE), the text between them kept. |
| Ddl.IdentityOptionsRespelled | sqlalchemy_tibero/base.py:803-817 | For unpadded option text with any number of generic negative options: without an order, the result is the same text in Tibero spelling; with one, that text followed by a space and ORDER or NOORDER, or the order word alone when there is no option text. |
| Ddl.VisitIdentityColumn | sqlalchemy_tibero/base.py:832-849 | The text starts with "GENERATED ". Reading it back recovers the kind (ALWAYS, BY DEFAULT or none), ON NULL and the option text. |
| ExecContext.DbLinkOption | sqlalchemy_tibero/base.py:1030-1034 | A missing or empty db link gives "". A link that starts with "@" is kept as is, and any other non-empty link becomes "@" followed by the link. |
| ExecContext.PreExec | sqlalchemy_tibero/base.py:881-886 | An empty statement, a missing db-link option or a statement without the placeholder is left unchanged. |
| ExecContext.CatalogViewLinked | sqlalchemy_tibero/base.py:881-886 | A catalog view name followed by the placeholder gets the prepared db link in its place and nothing else changes. |
| ExecContext.CatalogViewLocal | sqlalchemy_tibero/base.py:881-886 | Without a db link, the placeholder is removed. |
| ExecContext.ViewsLinked | sqlalchemy_tibero/base.py:881-886 | The placeholder after a catalog view name becomes the link, and the rest of the statement is processed the same way. So a statement with several placeholders has every one replaced, not only the first. |
| ExecContext.EveryViewLinked | sqlalchemy_tibero/base.py:881-886 | A statement made of any number of '$'-free pieces, each followed by the placeholder, reads every piece through the link. |

## Left out

- Warnings (`util.warn`) are side effects with no effect on the result. An unknown type becomes NULLTYPE silently.
- `maybe_int` and the FLOAT estimate `int(p / 0.30103)`: catalog numbers are taken as integers already. The estimate is computed as exact rational truncation, not in floating point.
- `str.lower` is modelled on ASCII letters only. `str.strip` removes the characters Python's `str.isspace` accepts. `int()` takes an optional sign and ASCII digits.
- CatalogTypes.ReflectType: the `\d` in the size-removing pattern is modelled as ASCII digits. Python's `re` also matches other Unicode decimal digits, which catalog type names do not contain.
- Foreign-key synonym resolution (base.py:2552-2589) is left out. Its lookup table comes from a second catalog query.
- The expression trees the compiler builds are left out: `ClauseAdapter`, `cloned_traverse`, the FOR UPDATE OF column re-targeting inside `translate_select_structure`, `returning_clause`, and the literal_execute traversal in `_execute_reflection`.
- RowLimit.Translate: the merge of the non-ANSI join WHERE clause into the statement and the `_simple_int_clause` / literal_execute choice are decisions about the built tree, not about the rows. `_simple_int_clause` is kept only as a flag on a clause.
- Joins.MarkOuter: AND and OR are binary nodes here. SQLAlchemy keeps them as clause lists, which the `visit_binary` hook does not visit, so a bare column that is a direct operand of AND/OR is marked here but not there.
- The ANSI join path and FromGrouping rendering belong to SQLAlchemy's base compiler, which is not part of this model. Joins.RenderLists covers the non-ANSI rendering only.
- Ddl.GetIdentityOptions: the generic option text comes from SQLAlchemy's DDLCompiler, which is not part of this model. It is a parameter, and only the Tibero rewriting is modelled.
- Ddl.VisitIdentityColumn: when `always` is None, the text reads "GENERATED  AS IDENTITY" with two spaces, as written in the source.
- The catalog SQL itself, including the REGEXP_LIKE/CASE 'SYS' renaming. Rows are taken as the queries deliver them, and names as the rows carry them.
- `normalize_name`, `denormalize_name`, the wrapped reflection function and `connection.execute` are parameters. Their own behaviour is SQLAlchemy's.
- Caching decorators (`lru_cache`, `reflection.cache`) are memoisation only.
- `post_create_table`, `visit_create_index`, the other single-line `visit_*` renderers, and the isolation-level and savepoint methods are outside the core.
- `sqlalchemy_tibero/pyodbc.py`, `requirements.py` and `__init__.py` are driver glue and packaging. `dictionary.py` is catalog metadata: only its placeholder constant `__$sa_dblink$__` (dictionary.py:17) is modelled.
- Synonyms.RowError: a db_link key whose value is NULL is not modelled. Only a missing key is.
- Batches.RunBatches: the executions are a pure function from a batch to its rows. Connection state and errors are not modelled.
