/** `_handle_synonyms` (sqlalchemy_tibero/base.py:1262-1309), the wrapper of
    every `get_multi_*` call: with `tibero_resolve_synonyms` it looks the
    requested names up among the owner's synonyms, calls the wrapped
    function once per (db link, owner) of the synonyms' targets, and
    reports the results under the synonym names. The wrapped function and
    the synonym rows are parameters. */
module Synonyms {
  import opened Wrappers
  import opened Strings
  import opened OrderedMaps

  /** One synonym row. `dbLink` is None when the row has no `db_link` key:
      the synonym query (base.py:1142-1162) does not select that column. */
  datatype SynonymRow = SynonymRow(
    synonymName: string,
    orgObjectName: string,
    orgObjectOwner: string,
    dbLink: Option<string>)

  /** The keyword arguments the wrapped function receives. */
  datatype Call = Call(schema: Option<string>, dblink: Option<string>, filterNames: Option<seq<string>>)

  type Key = (Option<string>, string)

  /** The error reading one row raises, if any: a missing `db_link` key, or a
      link that does not split into exactly two parts on "@". */
  function RowError(row: SynonymRow): (e: Option<Error>)
    ensures row.dbLink.None? ==> e == Some(KeyError("db_link"))
    ensures row.dbLink.Some? ==> (e.None? <==> |Split(row.dbLink.value, '@')| == 2)
  {
    if row.dbLink.None? then Some(KeyError("db_link"))
    else if |Split(row.dbLink.value, '@')| != 2 then Some(ValueError("wrong number of values to unpack"))
    else None
  }

  /** The error of the first row that has one. */
  function FirstRowError(rows: seq<SynonymRow>): (e: Option<Error>)
    ensures e.None? <==> forall j :: 0 <= j < |rows| ==> RowError(rows[j]).None?
    ensures e.Some? ==> exists j :: 0 <= j < |rows| && RowError(rows[j]) == e
    decreases |rows|
  {
    if |rows| == 0 then None
    else if RowError(rows[0]).Some? then RowError(rows[0])
    else
      var e := FirstRowError(rows[1..]);
      assert forall j :: 1 <= j < |rows| ==> rows[j] == rows[1..][j - 1];
      e
  }

  /** `("@" + the part after "@", org_object_owner)`. */
  function LinkKey(): SynonymRow -> Option<(string, string)> {
    (row: SynonymRow) =>
      if row.dbLink.Some? && |Split(row.dbLink.value, '@')| == 2
      then Some(("@" + Split(row.dbLink.value, '@')[1], row.orgObjectOwner)) else None
  }

  function TargetKey(normalize: string -> string): SynonymRow -> Option<string> {
    (row: SynonymRow) => Some(normalize(row.orgObjectName))
  }

  function SynonymStep(): (Option<string>, SynonymRow) -> string {
    (prior: Option<string>, row: SynonymRow) => row.synonymName
  }

  /** `dblinks_owners`: (db link, owner) -> normalized target name -> synonym name. */
  function GroupSynonyms(rows: seq<SynonymRow>, normalize: string -> string)
    : (r: Result<seq<((string, string), seq<(string, string)>)>>)
    ensures r.Failure? <==> FirstRowError(rows).Some?
    ensures r.Failure? ==> r.error == FirstRowError(rows).value
    ensures r.Success? ==> (|r.value| == 0 <==> |rows| == 0)
  {
    match FirstRowError(rows)
    case Some(e) => Failure(e)
    case None =>
      var groups := FoldBy([], rows, LinkKey(), NestStep(TargetKey(normalize), SynonymStep()));
      GroupsPresent(rows, normalize);
      Success(groups)
  }

  /** Once every row reads, each row gives a group. */
  lemma GroupsPresent(rows: seq<SynonymRow>, normalize: string -> string)
    requires FirstRowError(rows).None?
    ensures |rows| > 0 ==> |FoldBy([], rows, LinkKey(), NestStep(TargetKey(normalize), SynonymStep()))| > 0
  {
    if |rows| > 0 {
      assert RowError(rows[0]).None?;
      assert LinkKey()(rows[0]).Some?;
      FoldByKeys([], rows, LinkKey(), NestStep(TargetKey(normalize), SynonymStep()), LinkKey()(rows[0]).value);
    }
  }

  /** The synonym name of the last row whose target normalizes to `tn`. */
  function LastSynonym(rows: seq<SynonymRow>, normalize: string -> string, tn: string): (r: Option<string>)
    ensures r.Some? <==> Names(rows, TargetKey(normalize), tn)
  {
    var sel := Select(rows, TargetKey(normalize), tn);
    SelectNames(rows, TargetKey(normalize), tn);
    if |sel| == 0 then None else Some(sel[|sel| - 1].synonymName)
  }

  /** Assigning synonym names keeps the last one. */
  lemma SynonymFoldLast(rows: seq<SynonymRow>)
    requires |rows| > 0
    ensures FoldAll(None, rows, SynonymStep()) == Some(rows[|rows| - 1].synonymName)
  {
    assert rows == rows[..|rows| - 1] + [rows[|rows| - 1]];
    FoldAllSnoc(None, rows[..|rows| - 1], rows[|rows| - 1], SynonymStep());
  }

  /** One group's mapping: every target of its rows once, in first-row
      order, with the synonym name of the last row naming it. */
  lemma SynonymMapping(own: seq<SynonymRow>, normalize: string -> string)
    ensures var m := FoldBy([], own, TargetKey(normalize), SynonymStep());
            var targets := FirstKeys([], own, TargetKey(normalize));
            OncePerNamedKey(targets, own, TargetKey(normalize)) && |m| == |targets|
            && forall q :: 0 <= q < |targets| ==>
                 m[q].0 == targets[q] && LastSynonym(own, normalize, targets[q]) == Some(m[q].1)
  {
    var m := FoldBy([], own, TargetKey(normalize), SynonymStep());
    var targets := FirstKeys([], own, TargetKey(normalize));
    FirstKeysSpec(own, TargetKey(normalize));
    FoldByEntries(own, TargetKey(normalize), SynonymStep());
    forall q | 0 <= q < |targets|
      ensures LastSynonym(own, normalize, targets[q]) == Some(m[q].1)
    {
      SynonymFoldLast(Select(own, TargetKey(normalize), targets[q]));
    }
  }

  /** `dblinks_owners` in full: one group per distinct (db link, owner), in
      first-row order, each holding the mapping of exactly its own rows. */
  lemma GroupsComplete(rows: seq<SynonymRow>, normalize: string -> string)
    requires FirstRowError(rows).None?
    ensures var groups := GroupSynonyms(rows, normalize).value;
            var links := FirstKeys([], rows, LinkKey());
            OncePerNamedKey(links, rows, LinkKey()) && |groups| == |links|
            && forall p :: 0 <= p < |links| ==>
                 groups[p].0 == links[p] && |Select(rows, LinkKey(), links[p])| > 0
                 && groups[p].1 == FoldBy([], Select(rows, LinkKey(), links[p]), TargetKey(normalize), SynonymStep())
  {
    var links := FirstKeys([], rows, LinkKey());
    FirstKeysSpec(rows, LinkKey());
    FoldByEntries(rows, LinkKey(), NestStep(TargetKey(normalize), SynonymStep()));
    forall p | 0 <= p < |links|
      ensures FoldAll(None, Select(rows, LinkKey(), links[p]), NestStep(TargetKey(normalize), SynonymStep()))
              == Some(FoldBy([], Select(rows, LinkKey(), links[p]), TargetKey(normalize), SynonymStep()))
    {
      FoldAllNest(None, Select(rows, LinkKey(), links[p]), TargetKey(normalize), SynonymStep());
    }
  }

  /** Renames the keys of one call's result: `((_, tn), value)` becomes
      `((schema, normalize(mapping[tn])), value)`; an unknown `tn` is a KeyError. */
  function Remap<V>(result: seq<(Key, V)>, mapping: seq<(string, string)>, schema: Option<string>,
                    normalize: string -> string): (r: Result<seq<(Key, V)>>)
    ensures r.Failure? <==> exists i :: 0 <= i < |result| && Get(mapping, result[i].0.1).None?
    ensures r.Success? ==> |r.value| == |result|
    ensures r.Success? ==> forall i :: 0 <= i < |result| ==>
              r.value[i] == ((schema, normalize(Get(mapping, result[i].0.1).value)), result[i].1)
    decreases |result|
  {
    if |result| == 0 then Success([])
    else
      match Get(mapping, result[0].0.1)
      case None => Failure(KeyError(result[0].0.1))
      case Some(synonym) =>
        var rest := Remap(result[1..], mapping, schema, normalize);
        assert forall i :: 1 <= i < |result| ==> result[i] == result[1..][i - 1];
        if rest.Failure? then rest
        else Success([((schema, normalize(synonym)), result[0].1)] + rest.value)
  }

  /** The call of one group and its result renamed: the group's owner as
      schema, its normalized link as dblink, its target names as filter names. */
  function GroupReport<V>(g: ((string, string), seq<(string, string)>), schema: Option<string>,
                          fn: Call -> Result<seq<(Key, V)>>, normalize: string -> string)
    : (r: Result<seq<(Key, V)>>)
    ensures r.Success? ==> forall i :: 0 <= i < |r.value| ==>
              exists q :: 0 <= q < |g.1| && r.value[i].0 == (schema, normalize(g.1[q].1))
  {
    var result :- fn(GroupCall(g, normalize));
    Remap(result, g.1, schema, normalize)
  }

  /** One call per group, in group order, stopping at the first failure. */
  function CallGroups<V>(groups: seq<((string, string), seq<(string, string)>)>, call: Call,
                         fn: Call -> Result<seq<(Key, V)>>, normalize: string -> string)
    : (r: Result<seq<(Key, V)>>)
    ensures r.Success? ==> forall i :: 0 <= i < |r.value| ==> r.value[i].0.0 == call.schema
    decreases |groups|
  {
    if |groups| == 0 then Success([])
    else
      var renamed :- GroupReport(groups[0], call.schema, fn, normalize);
      var rest :- CallGroups(groups[1..], call, fn, normalize);
      Success(renamed + rest)
  }

  /** Every group's call succeeds. */
  predicate AllReported<V>(groups: seq<((string, string), seq<(string, string)>)>, schema: Option<string>,
                           fn: Call -> Result<seq<(Key, V)>>, normalize: string -> string)
  {
    forall p :: 0 <= p < |groups| ==> GroupReport(groups[p], schema, fn, normalize).Success?
  }

  /** Some group's call succeeds and reports `x`. */
  ghost predicate ReportedBy<V>(groups: seq<((string, string), seq<(string, string)>)>, schema: Option<string>,
                                fn: Call -> Result<seq<(Key, V)>>, normalize: string -> string, x: (Key, V))
  {
    exists p :: 0 <= p < |groups| && GroupReport(groups[p], schema, fn, normalize).Success?
                && x in GroupReport(groups[p], schema, fn, normalize).value
  }

  /** The calls succeed exactly when every group's call does. */
  lemma {:induction false} CallGroupsSucceed<V>(groups: seq<((string, string), seq<(string, string)>)>, call: Call,
                                                fn: Call -> Result<seq<(Key, V)>>, normalize: string -> string)
    ensures CallGroups(groups, call, fn, normalize).Success? <==> AllReported(groups, call.schema, fn, normalize)
    decreases |groups|
  {
    if |groups| > 0 {
      CallGroupsSucceed(groups[1..], call, fn, normalize);
      assert forall p :: 1 <= p < |groups| ==> groups[p] == groups[1..][p - 1];
    }
  }

  /** On success the pairs are every group's renamed pairs and nothing else. */
  lemma {:induction false} CallGroupsPairs<V>(groups: seq<((string, string), seq<(string, string)>)>, call: Call,
                                              fn: Call -> Result<seq<(Key, V)>>, normalize: string -> string)
    requires CallGroups(groups, call, fn, normalize).Success?
    ensures forall x :: x in CallGroups(groups, call, fn, normalize).value <==> ReportedBy(groups, call.schema, fn, normalize, x)
    decreases |groups|
  {
    if |groups| > 0 {
      CallGroupsPairs(groups[1..], call, fn, normalize);
      assert forall p :: 1 <= p < |groups| ==> groups[p] == groups[1..][p - 1];
      var first := GroupReport(groups[0], call.schema, fn, normalize).value;
      var rest := CallGroups(groups[1..], call, fn, normalize).value;
      assert CallGroups(groups, call, fn, normalize).value == first + rest;
      forall x
        ensures x in first + rest <==> ReportedBy(groups, call.schema, fn, normalize, x)
      {
        if x in first {
          assert GroupReport(groups[0], call.schema, fn, normalize).Success?;
        } else if x in rest {
          var p :| 0 <= p < |groups[1..]| && GroupReport(groups[1..][p], call.schema, fn, normalize).Success?
                   && x in GroupReport(groups[1..][p], call.schema, fn, normalize).value;
          assert groups[1..][p] == groups[p + 1];
        }
      }
    }
  }

  function GroupCall(g: ((string, string), seq<(string, string)>), normalize: string -> string): Call {
    Call(Some(g.0.1), Some(normalize(g.0.0)), Some(Keys(g.1)))
  }

  function HandleSynonyms<V>(resolveSynonyms: bool, call: Call, synonyms: seq<SynonymRow>,
                             fn: Call -> Result<seq<(Key, V)>>, normalize: string -> string)
    : (r: Result<seq<(Key, V)>>)
    ensures !resolveSynonyms ==> r == fn(call)
    ensures resolveSynonyms && |synonyms| == 0 ==> r == fn(call)
    ensures resolveSynonyms && FirstRowError(synonyms).Some? ==> r == Failure(FirstRowError(synonyms).value)
    ensures resolveSynonyms && |synonyms| > 0 && r.Success? ==>
              forall i :: 0 <= i < |r.value| ==> r.value[i].0.0 == call.schema
  {
    if !resolveSynonyms then fn(call)
    else
      var groups :- GroupSynonyms(synonyms, normalize);
      if |groups| == 0 then fn(call)
      else
        var pairs :- CallGroups(groups, call, fn, normalize);
        DictOfKeys(pairs, call.schema);
        Success(DictOf(pairs))
  }

  /** Some group's mapping holds the synonym `k` stands for. */
  ghost predicate RenamedFrom(groups: seq<((string, string), seq<(string, string)>)>, schema: Option<string>,
                              normalize: string -> string, k: Key)
  {
    exists p, q :: 0 <= p < |groups| && 0 <= q < |groups[p].1| && k == (schema, normalize(groups[p].1[q].1))
  }

  /** Resolving synonyms calls the wrapped function once per group: it
      succeeds exactly when every group's call does, reports every key some
      group's call reports and no other, each one the caller's schema with a
      normalized synonym name of that group, and the value of the last pair
      reported under that key, each key once. */
  lemma SynonymCalls<V>(call: Call, synonyms: seq<SynonymRow>, fn: Call -> Result<seq<(Key, V)>>,
                        normalize: string -> string)
    requires |synonyms| > 0 && FirstRowError(synonyms).None?
    ensures var groups := GroupSynonyms(synonyms, normalize).value;
            var r := HandleSynonyms(true, call, synonyms, fn, normalize);
            (r.Success? <==> AllReported(groups, call.schema, fn, normalize))
            && (r.Success? ==> forall x :: ReportedBy(groups, call.schema, fn, normalize, x) ==> x.0 in Keys(r.value))
            && (r.Success? ==> forall i :: 0 <= i < |r.value| ==> ReportedBy(groups, call.schema, fn, normalize, r.value[i]))
            && (r.Success? ==> forall i :: 0 <= i < |r.value| ==> RenamedFrom(groups, call.schema, normalize, r.value[i].0))
            && (r.Success? ==> DistinctKeys(r.value))
            && (r.Success? ==> forall i :: 0 <= i < |r.value| ==>
                  LastOf(CallGroups(groups, call, fn, normalize).value, r.value[i].0) == Some(r.value[i].1))
  {
    var groups := GroupSynonyms(synonyms, normalize).value;
    var r := HandleSynonyms(true, call, synonyms, fn, normalize);
    CallGroupsSucceed(groups, call, fn, normalize);
    if r.Success? {
      var pairs := CallGroups(groups, call, fn, normalize).value;
      CallGroupsPairs(groups, call, fn, normalize);
      assert r.value == DictOf(pairs);
      forall x | ReportedBy(groups, call.schema, fn, normalize, x) ensures x.0 in Keys(r.value) {
        FoldByKeys([], pairs, PairKey(), Overwrite(), x.0);
        var j :| 0 <= j < |pairs| && pairs[j] == x;
        assert PairKey<Key, V>()(pairs[j]) == Some(x.0);
      }
      forall i | 0 <= i < |r.value|
        ensures ReportedBy(groups, call.schema, fn, normalize, r.value[i])
        ensures RenamedFrom(groups, call.schema, normalize, r.value[i].0)
        ensures LastOf(pairs, r.value[i].0) == Some(r.value[i].1)
      {
        GetAt(r.value, i);
        DictOfGet(pairs, r.value[i].0);
        DictOfEntry(pairs, i);
        var p :| 0 <= p < |groups| && GroupReport(groups[p], call.schema, fn, normalize).Success?
                 && r.value[i] in GroupReport(groups[p], call.schema, fn, normalize).value;
        var reported := GroupReport(groups[p], call.schema, fn, normalize).value;
        var j :| 0 <= j < |reported| && reported[j] == r.value[i];
        var q :| 0 <= q < |groups[p].1| && reported[j].0 == (call.schema, normalize(groups[p].1[q].1));
      }
    }
  }

  /** `dict(pairs)` keeps only keys of the pairs. */
  lemma DictOfKeys<V>(pairs: seq<(Key, V)>, schema: Option<string>)
    requires forall i :: 0 <= i < |pairs| ==> pairs[i].0.0 == schema
    ensures forall i :: 0 <= i < |DictOf(pairs)| ==> DictOf(pairs)[i].0.0 == schema
  {
    var m := DictOf(pairs);
    forall i | 0 <= i < |m| ensures m[i].0.0 == schema {
      FoldByKeys([], pairs, PairKey(), Overwrite(), m[i].0);
      assert Keys(m)[i] == m[i].0;
      var j :| 0 <= j < |pairs| && PairKey<Key, V>()(pairs[j]) == Some(m[i].0);
    }
  }

  /** With the synonym query as written, no row carries `db_link`: resolving
      synonyms fails with KeyError as soon as one synonym matches. */
  lemma SynonymsWithoutLinkFail<V>(call: Call, synonyms: seq<SynonymRow>, fn: Call -> Result<seq<(Key, V)>>,
                                   normalize: string -> string)
    requires |synonyms| > 0 && forall j :: 0 <= j < |synonyms| ==> synonyms[j].dbLink.None?
    ensures HandleSynonyms(true, call, synonyms, fn, normalize) == Failure(KeyError("db_link"))
  {
    assert RowError(synonyms[0]).Some?;
  }

  /** A synonym of a local table, `name@link` read back: its call goes to the
      link "@link" and the synonym's owner. */
  lemma LinkOfSynonym(table: string, link: string, owner: string, synonym: string, target: string)
    requires '@' !in table && '@' !in link
    ensures LinkKey()(SynonymRow(synonym, target, owner, Some(table + "@" + link))) == Some(("@" + link, owner))
  {
    SplitAppend(table, '@', link);
    SplitNoSeparator(link, '@');
    SplitNoSeparator(table, '@');
  }

  /** One synonym whose target the wrapped function reports: the report comes
      back under the synonym's name and the caller's schema. */
  lemma SynonymReported<V>(call: Call, row: SynonymRow, fn: Call -> Result<seq<(Key, V)>>,
                           normalize: string -> string, value: V)
    requires RowError(row).None?
    requires var g := ((LinkKey()(row).value), [(normalize(row.orgObjectName), row.synonymName)]);
             fn(GroupCall(g, normalize)) == Success([((Some(row.orgObjectOwner), normalize(row.orgObjectName)), value)])
    ensures HandleSynonyms(true, call, [row], fn, normalize)
            == Success([((call.schema, normalize(row.synonymName)), value)])
  {
    var key := LinkKey()(row).value;
    FoldBySingle(row, TargetKey(normalize), SynonymStep());
    var inner := [(normalize(row.orgObjectName), row.synonymName)];
    assert SynonymStep()(None, row) == row.synonymName;
    assert FoldStep([], row, TargetKey(normalize), SynonymStep()) == inner;
    var none: Option<seq<(string, string)>> := None;
    assert none.GetOr([]) == [];
    assert NestStep(TargetKey(normalize), SynonymStep())(none, row) == inner;
    FoldBySingle(row, LinkKey(), NestStep(TargetKey(normalize), SynonymStep()));
    var groups := [(key, inner)];
    assert GroupSynonyms([row], normalize) == Success(groups);
    var pairs := [((call.schema, normalize(row.synonymName)), value)];
    assert Get(inner, normalize(row.orgObjectName)) == Some(row.synonymName);
    var reported := [((Some(row.orgObjectOwner), normalize(row.orgObjectName)), value)];
    assert reported[1..] == [];
    assert Remap(reported[1..], inner, call.schema, normalize) == Success([]);
    assert pairs + [] == pairs;
    assert Remap(reported, inner, call.schema, normalize) == Success(pairs);
    assert groups[1..] == [];
    assert CallGroups(groups, call, fn, normalize) == Success(pairs + []);
    FoldBySingle(pairs[0], PairKey(), Overwrite());
    assert DictOf(pairs) == pairs;
  }
}
