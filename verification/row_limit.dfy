/** Row-limit emulation of the Tibero compiler (`translate_select_structure`,
    sqlalchemy_tibero/base.py:495-641): when OFFSET/FETCH is unavailable, a
    SELECT with LIMIT and/or OFFSET is wrapped in a subquery filtered on
    ROWNUM, and, with an offset, wrapped once more and filtered on the
    `ora_rn` label of that ROWNUM. Statements are modelled by the decisions
    the translation makes; their result is modelled as a row sequence in
    which ROWNUM is the 1-based position a row would take if accepted. */
module RowLimit {
  import opened Wrappers
  import opened Strings

  /** A LIMIT or OFFSET value, and whether it is a plain integer
      (`_simple_int_clause`) rather than a bound expression. */
  datatype Clause = Clause(value: nat, simpleInt: bool)

  datatype Source = BaseTable | Subquery(stmt: Stmt)

  /** A SELECT as far as the translation is concerned. */
  datatype Stmt = Stmt(
    source: Source,
    rownumAtMost: Option<nat>,   // WHERE ROWNUM <= n
    rnAbove: Option<nat>,        // WHERE ora_rn > n
    labelsRownum: bool,          // ROWNUM AS ora_rn among the columns
    limit: Option<Clause>,
    offset: Option<Clause>,
    fetch: Option<Clause>,
    tiberoVisit: bool,           // `_tibero_visit`
    hint: Option<string>)        // the FIRST_ROWS optimizer hint

  /** A plain SELECT from a table, before translation. */
  function Original(limit: Option<Clause>, offset: Option<Clause>, fetch: Option<Clause>): Stmt {
    Stmt(BaseTable, None, None, false, limit, offset, fetch, false, None)
  }

  /** The statement is rewritten exactly when it has a LIMIT or OFFSET, the
      dialect lacks OFFSET/FETCH, there is no FETCH clause, and it is not
      one the translation produced itself. */
  predicate Applies(s: Stmt, supportsOffsetFetch: bool) {
    !s.tiberoVisit && (s.limit.Some? || s.offset.Some?) && !supportsOffsetFetch && s.fetch.None?
  }

  function FirstRowsHint(n: nat): string {
    "/*+ FIRST_ROWS(" + NatToString(n) + ") */"
  }

  function Translate(s: Stmt, supportsOffsetFetch: bool, optimizeLimits: bool): (r: Stmt)
    ensures !Applies(s, supportsOffsetFetch) ==> r == s
    ensures Applies(s, supportsOffsetFetch) ==>
              r.tiberoVisit && r.limit.None? && r.offset.None? && r.fetch.None?
    // without an offset, one wrap keeping the first `limit` rows
    ensures Applies(s, supportsOffsetFetch) && s.offset.None? ==>
              r.source == Subquery(s.(tiberoVisit := true)) && r.rnAbove.None?
              && r.rownumAtMost == (if s.limit.None? then None else Some(s.limit.value.value))
    // with one, a second wrap keeping what follows the offset on the ora_rn label
    // of the inner ROWNUM <= limit + offset
    ensures Applies(s, supportsOffsetFetch) && s.offset.Some? ==>
              r.rnAbove == Some(s.offset.value.value) && r.rownumAtMost.None?
              && r.source.Subquery? && r.source.stmt.labelsRownum
              && r.source.stmt.source == Subquery(s.(tiberoVisit := true))
              && r.source.stmt.rownumAtMost
                 == (if s.limit.None? then None else Some(s.limit.value.value + s.offset.value.value))
  {
    if !Applies(s, supportsOffsetFetch) then s
    else
      var inner := s.(tiberoVisit := true);
      var maxRow := if s.limit.None? then None
                    else Some(s.limit.value.value + (if s.offset.None? then 0 else s.offset.value.value));
      var hint := if s.limit.Some? && optimizeLimits && s.limit.value.simpleInt
                  then Some(FirstRowsHint(s.limit.value.value)) else None;
      var limitSelect := Stmt(Subquery(inner), maxRow, None, false, None, None, None, true, hint);
      if s.offset.None? then limitSelect
      else
        Stmt(Subquery(limitSelect.(labelsRownum := true)), None, Some(s.offset.value.value), false,
             None, None, None, true, None)
  }

  /** The rewrite is done once: the statements it builds are marked. */
  lemma TranslateIdempotent(s: Stmt, supportsOffsetFetch: bool, optimizeLimits: bool)
    ensures var t := Translate(s, supportsOffsetFetch, optimizeLimits);
            Translate(t, supportsOffsetFetch, optimizeLimits) == t
  {
  }

  // ---------------------------------------------------------------------------
  // What the statements return

  /** A result row and its `ora_rn`, 0 where none was labelled. */
  datatype Out<R> = Out(row: R, rn: nat)

  /** A WHERE clause over a source, ROWNUM counted as Oracle-style databases
      do: a candidate row gets ROWNUM one more than the rows accepted so far,
      and only an accepted row moves the count on. */
  function RownumWhere<R>(src: seq<Out<R>>, accepted: nat, rownumAtMost: Option<nat>, rnAbove: Option<nat>,
                          labels: bool): (r: seq<Out<R>>)
    ensures |r| <= |src|
    decreases |src|
  {
    if |src| == 0 then []
    else
      var rownum := accepted + 1;
      var pass := (rnAbove.None? || src[0].rn > rnAbove.value)
                  && (rownumAtMost.None? || rownum <= rownumAtMost.value);
      if pass then [Out(src[0].row, if labels then rownum else src[0].rn)]
                   + RownumWhere(src[1..], accepted + 1, rownumAtMost, rnAbove, labels)
      else RownumWhere(src[1..], accepted, rownumAtMost, rnAbove, labels)
  }

  /** The rows a statement returns from a table's rows, with LIMIT and OFFSET
      themselves rendering to nothing (`limit_clause` is empty). */
  function Evaluate<R>(s: Stmt, table: seq<R>): seq<Out<R>>
    decreases s
  {
    var src := match s.source
               case BaseTable => Numbered(table)
               case Subquery(t) => Evaluate(t, table);
    RownumWhere(src, 0, s.rownumAtMost, s.rnAbove, s.labelsRownum)
  }

  function Numbered<R>(table: seq<R>): (out: seq<Out<R>>)
    ensures |out| == |table| && forall i :: 0 <= i < |table| ==> out[i] == Out(table[i], 0)
  {
    seq(|table|, i requires 0 <= i < |table| => Out(table[i], 0))
  }

  function Rows<R>(out: seq<Out<R>>): (rows: seq<R>)
    ensures |rows| == |out| && forall i :: 0 <= i < |out| ==> rows[i] == out[i].row
  {
    seq(|out|, i requires 0 <= i < |out| => out[i].row)
  }

  function Min(a: int, b: int): int {
    if a <= b then a else b
  }

  /** `ROWNUM <= m`: the first m rows, labelled with their positions. */
  lemma {:induction false} RownumAtMostTakes<R>(src: seq<Out<R>>, accepted: nat, m: nat, labels: bool)
    requires accepted <= m
    ensures var r := RownumWhere(src, accepted, Some(m), None, labels);
            |r| == Min(m - accepted, |src|)
            && forall i :: 0 <= i < |r| ==>
                 r[i].row == src[i].row && r[i].rn == (if labels then accepted + i + 1 else src[i].rn)
    decreases |src|
  {
    if |src| > 0 && accepted < m {
      RownumAtMostTakes(src[1..], accepted + 1, m, labels);
    } else if |src| > 0 {
      RownumAtMostNone(src, accepted, m, labels);
    }
  }

  lemma {:induction false} RownumAtMostNone<R>(src: seq<Out<R>>, accepted: nat, m: nat, labels: bool)
    requires accepted >= m
    ensures RownumWhere(src, accepted, Some(m), None, labels) == []
    decreases |src|
  {
    if |src| > 0 {
      RownumAtMostNone(src[1..], accepted, m, labels);
    }
  }

  /** No filter: every row, labelled with its position when asked. */
  lemma {:induction false} RownumAll<R>(src: seq<Out<R>>, accepted: nat, labels: bool)
    ensures var r := RownumWhere(src, accepted, None, None, labels);
            |r| == |src|
            && forall i :: 0 <= i < |r| ==>
                 r[i].row == src[i].row && r[i].rn == (if labels then accepted + i + 1 else src[i].rn)
    decreases |src|
  {
    if |src| > 0 {
      RownumAll(src[1..], accepted + 1, labels);
    }
  }

  /** `ora_rn > k` over rows labelled 1, 2, ...: everything after the k-th. */
  lemma {:induction false} RnAboveDrops<R>(src: seq<Out<R>>, accepted: nat, k: nat, first: nat)
    requires Labelled(src, first)
    requires first >= 1
    ensures DropsFirst(RownumWhere(src, accepted, None, Some(k), false), src,
                       if k + 1 <= first then 0 else Min(k + 1 - first, |src|))
    decreases |src|
  {
    if |src| > 0 {
      assert Labelled(src[1..], first + 1) by {
        assert forall i :: 0 <= i < |src| - 1 ==> src[1..][i].rn == first + 1 + i;
      }
      if src[0].rn > k {
        RnAboveDrops(src[1..], accepted + 1, k, first + 1);
      } else {
        RnAboveDrops(src[1..], accepted, k, first + 1);
      }
    }
  }

  /** The rows are labelled first, first + 1, ... */
  predicate Labelled<R>(src: seq<Out<R>>, first: nat) {
    forall i :: 0 <= i < |src| ==> src[i].rn == first + i
  }

  /** r is src without its first d rows. */
  ghost predicate DropsFirst<R>(r: seq<Out<R>>, src: seq<Out<R>>, d: int) {
    0 <= d <= |src| && |r| == |src| - d && forall i :: 0 <= i < |r| ==> r[i] == src[d + i]
  }

  /** `ROWNUM > k` on its own returns nothing for k >= 1: the first candidate
      is numbered 1 and rejected, so every later one is numbered 1 too. This
      is why the offset is applied to the `ora_rn` label one level up. */
  lemma {:induction false} RownumAboveEmpty<R>(src: seq<Out<R>>, k: nat)
    requires k >= 1
    ensures RownumAboveFilter(src, 0, k) == []
    decreases |src|
  {
    if |src| > 0 {
      RownumAboveEmpty(src[1..], k);
    }
  }

  /** `WHERE ROWNUM > k`. */
  function RownumAboveFilter<R>(src: seq<Out<R>>, accepted: nat, k: nat): (r: seq<Out<R>>)
    ensures |r| <= |src|
    ensures k == 0 && |src| > 0 ==> |r| > 0
    decreases |src|
  {
    if |src| == 0 then []
    else if accepted + 1 > k then [src[0]] + RownumAboveFilter(src[1..], accepted + 1, k)
    else RownumAboveFilter(src[1..], accepted, k)
  }

  /** The marked copy of the original statement returns the table's rows. */
  lemma InnerRows<R>(s: Stmt, table: seq<R>)
    requires s.source == BaseTable && s.rownumAtMost.None? && s.rnAbove.None? && !s.labelsRownum
    ensures var base := Evaluate(s.(tiberoVisit := true), table);
            |base| == |table| && forall i :: 0 <= i < |base| ==> base[i].row == table[i]
  {
    RownumAll(Numbered(table), 0, false);
  }

  /** The ROWNUM-filtered level: the first `limit + offset` rows (all of them
      without a limit), labelled 1, 2, ... when asked. */
  lemma LimitedRows<R>(base: seq<Out<R>>, table: seq<R>, maxRow: Option<nat>, labels: bool)
    requires |base| == |table| && forall i :: 0 <= i < |base| ==> base[i].row == table[i]
    ensures var limited := RownumWhere(base, 0, maxRow, None, labels);
            |limited| == (if maxRow.None? then |table| else Min(maxRow.value, |table|))
            && forall i :: 0 <= i < |limited| ==> limited[i].row == table[i] && (labels ==> limited[i].rn == i + 1)
  {
    if maxRow.Some? {
      RownumAtMostTakes(base, 0, maxRow.value, labels);
    } else {
      RownumAll(base, 0, labels);
    }
  }

  /** The translated statement returns rows offset+1 .. offset+limit of the
      original order, or every row after the offset without a limit. */
  lemma TranslatedRows<R>(s: Stmt, optimizeLimits: bool, table: seq<R>)
    requires Applies(s, false) && s.source == BaseTable
    requires s.rownumAtMost.None? && s.rnAbove.None? && !s.labelsRownum
    ensures var off := if s.offset.None? then 0 else s.offset.value.value;
            var stop := if s.limit.None? then |table| else Min(off + s.limit.value.value, |table|);
            Rows(Evaluate(Translate(s, false, optimizeLimits), table))
            == if off <= stop then table[off..stop] else []
  {
    InnerRows(s, table);
    if s.offset.None? {
      TranslatedRowsNoOffset(s, optimizeLimits, table);
    } else {
      TranslatedRowsOffset(s, optimizeLimits, table);
    }
  }

  lemma TranslatedRowsNoOffset<R>(s: Stmt, optimizeLimits: bool, table: seq<R>)
    requires Applies(s, false) && s.offset.None? && s.source == BaseTable
    requires var base := Evaluate(s.(tiberoVisit := true), table);
             |base| == |table| && forall i :: 0 <= i < |base| ==> base[i].row == table[i]
    ensures var stop := if s.limit.None? then |table| else Min(s.limit.value.value, |table|);
            Rows(Evaluate(Translate(s, false, optimizeLimits), table)) == table[..stop]
  {
    var t := Translate(s, false, optimizeLimits);
    var base := Evaluate(s.(tiberoVisit := true), table);
    LimitedRows(base, table, t.rownumAtMost, false);
    var r := Evaluate(t, table);
    assert r == RownumWhere(base, 0, t.rownumAtMost, None, false);
    var stop := if s.limit.None? then |table| else Min(s.limit.value.value, |table|);
    SliceOf(Rows(r), table, 0, stop);
  }

  lemma TranslatedRowsOffset<R>(s: Stmt, optimizeLimits: bool, table: seq<R>)
    requires Applies(s, false) && s.offset.Some? && s.source == BaseTable
    requires var base := Evaluate(s.(tiberoVisit := true), table);
             |base| == |table| && forall i :: 0 <= i < |base| ==> base[i].row == table[i]
    ensures var off := s.offset.value.value;
            var stop := if s.limit.None? then |table| else Min(off + s.limit.value.value, |table|);
            Rows(Evaluate(Translate(s, false, optimizeLimits), table))
            == if off <= stop then table[off..stop] else []
  {
    var off := s.offset.value.value;
    var stop := if s.limit.None? then |table| else Min(off + s.limit.value.value, |table|);
    var t := Translate(s, false, optimizeLimits);
    var base := Evaluate(s.(tiberoVisit := true), table);
    var limiting := t.source.stmt;
    LimitedRows(base, table, limiting.rownumAtMost, true);
    var limited := Evaluate(limiting, table);
    assert limited == RownumWhere(base, 0, limiting.rownumAtMost, None, true);
    assert |limited| == stop;
    assert Evaluate(t, table) == RownumWhere(limited, 0, None, Some(off), false);
    OffsetRows(limited, table, off);
  }

  /** The outer `ora_rn > offset` filter over rows labelled 1, 2, ... keeps
      the rows after the offset. */
  lemma OffsetRows<R>(limited: seq<Out<R>>, table: seq<R>, off: nat)
    requires |limited| <= |table|
    requires forall i :: 0 <= i < |limited| ==> limited[i].row == table[i] && limited[i].rn == i + 1
    ensures var stop := |limited|;
            Rows(RownumWhere(limited, 0, None, Some(off), false)) == if off <= stop then table[off..stop] else []
  {
    assert Labelled(limited, 1);
    RnAboveDrops(limited, 0, off, 1);
    DroppedRows(RownumWhere(limited, 0, None, Some(off), false), limited, table, off,
                if off + 1 <= 1 then 0 else Min(off + 1 - 1, |limited|));
  }

  /** What is left after dropping the first `off` labelled rows. */
  lemma DroppedRows<R>(r: seq<Out<R>>, limited: seq<Out<R>>, table: seq<R>, off: nat, d: int)
    requires |limited| <= |table|
    requires forall i :: 0 <= i < |limited| ==> limited[i].row == table[i]
    requires d == if off == 0 then 0 else Min(off, |limited|)
    requires DropsFirst(r, limited, d)
    ensures Rows(r) == if off <= |limited| then table[off..|limited|] else []
  {
    var rows := Rows(r);
    if off <= |limited| {
      forall i | 0 <= i < |rows|
        ensures rows[i] == table[off + i]
      {
        assert rows[i] == r[i].row;
      }
      SliceOf(rows, table, off, |limited|);
    }
  }

  lemma SliceOf<R>(xs: seq<R>, table: seq<R>, from: nat, to: nat)
    requires from <= to <= |table| && |xs| == to - from
    requires forall i :: 0 <= i < |xs| ==> xs[i] == table[from + i]
    ensures xs == table[from..to]
  {
  }

  // ---------------------------------------------------------------------------
  // FOR UPDATE

  /** `for_update_clause`: nothing inside a subquery; otherwise FOR UPDATE,
      with OF and the rendered columns, NOWAIT and SKIP LOCKED as asked. */
  function ForUpdateClause(isSubquery: bool, of: seq<string>, nowait: bool, skipLocked: bool): (r: string)
    ensures isSubquery <==> r == ""
    ensures !isSubquery ==> StartsWith(r, " FOR UPDATE")
  {
    if isSubquery then ""
    else
      var ofPart := if |of| > 0 then " OF " + Join(of, ", ") else "";
      " FOR UPDATE" + ofPart + (if nowait then " NOWAIT" else "") + (if skipLocked then " SKIP LOCKED" else "")
  }

  /** The words of a rendered clause, each after one space. */
  function Spaced(words: seq<string>): string {
    if |words| == 0 then "" else " " + words[0] + Spaced(words[1..])
  }

  /** The column list after OF: every name but the last followed by a comma. */
  function Commas(names: seq<string>): seq<string>
    requires |names| > 0
  {
    if |names| == 1 then names else [names[0] + ","] + Commas(names[1..])
  }

  function ForUpdateWords(of: seq<string>, nowait: bool, skipLocked: bool): seq<string> {
    ["FOR", "UPDATE"] + OfWords(of) + ModeWords(nowait, skipLocked)
  }

  function OfWords(of: seq<string>): seq<string> {
    if |of| > 0 then ["OF"] + Commas(of) else []
  }

  function ModeWords(nowait: bool, skipLocked: bool): seq<string> {
    (if nowait then ["NOWAIT"] else []) + (if skipLocked then ["SKIP", "LOCKED"] else [])
  }

  /** Reads the options back from a rendered clause: its words, the OF names
      up to the first without a trailing comma, then the locking modes. */
  function ParseForUpdate(r: string): Option<(seq<string>, bool, bool)> {
    ParseWords(Split(r, ' '))
  }

  function ParseWords(words: seq<string>): Option<(seq<string>, bool, bool)> {
    if |words| < 3 || words[..3] != ["", "FOR", "UPDATE"] then None
    else
      var rest := words[3..];
      if |rest| > 0 && rest[0] == "OF" then
        match TakeNames(rest[1..])
        case None => None
        case Some(p) =>
          match ParseModes(p.1)
          case None => None
          case Some(m) => Some((p.0, m.0, m.1))
      else
        match ParseModes(rest)
        case None => None
        case Some(m) => Some(([], m.0, m.1))
  }

  function TakeNames(words: seq<string>): Option<(seq<string>, seq<string>)>
    decreases |words|
  {
    if |words| == 0 then None
    else
      var w := words[0];
      if |w| > 0 && w[|w| - 1] == ',' then
        match TakeNames(words[1..])
        case None => None
        case Some(p) => Some(([w[..|w| - 1]] + p.0, p.1))
      else Some(([w], words[1..]))
  }

  function ParseModes(words: seq<string>): Option<(bool, bool)> {
    if words == [] then Some((false, false))
    else if words == ["NOWAIT"] then Some((true, false))
    else if words == ["SKIP", "LOCKED"] then Some((false, true))
    else if words == ["NOWAIT", "SKIP", "LOCKED"] then Some((true, true))
    else None
  }

  /** Column names free of the two separators the clause uses. */
  predicate PlainNames(names: seq<string>) {
    forall i :: 0 <= i < |names| ==> ' ' !in names[i] && ',' !in names[i]
  }

  /** The rendered clause gives its options back. */
  lemma {:induction false} ForUpdateRoundTrip(of: seq<string>, nowait: bool, skipLocked: bool)
    requires PlainNames(of)
    ensures ParseForUpdate(ForUpdateClause(false, of, nowait, skipLocked)) == Some((of, nowait, skipLocked))
  {
    ForUpdateSpaced(of, nowait, skipLocked);
    WordsFree(of, nowait, skipLocked);
    SplitSpaced(ForUpdateWords(of, nowait, skipLocked));
    ParseWordsRoundTrip(of, nowait, skipLocked);
  }

  lemma {:induction false} ParseWordsRoundTrip(of: seq<string>, nowait: bool, skipLocked: bool)
    requires PlainNames(of)
    ensures ParseWords([""] + ForUpdateWords(of, nowait, skipLocked)) == Some((of, nowait, skipLocked))
  {
    var modes := ModeWords(nowait, skipLocked);
    ModesRead(nowait, skipLocked);
    WordsShape(of, nowait, skipLocked);
    if |of| > 0 {
      OfRead(of, modes);
    } else {
      ParseHead(modes);
    }
  }

  lemma WordsShape(of: seq<string>, nowait: bool, skipLocked: bool)
    ensures [""] + ForUpdateWords(of, nowait, skipLocked)
            == ["", "FOR", "UPDATE"] + (OfWords(of) + ModeWords(nowait, skipLocked))
  {
  }

  lemma ModesRead(nowait: bool, skipLocked: bool)
    ensures ParseModes(ModeWords(nowait, skipLocked)) == Some((nowait, skipLocked))
  {
  }

  /** An OF list followed by the modes reads as the names and the modes. */
  lemma OfRead(of: seq<string>, modes: seq<string>)
    requires |of| > 0 && PlainNames(of)
    requires ParseModes(modes).Some?
    ensures ParseWords(["", "FOR", "UPDATE"] + (OfWords(of) + modes))
            == Some((of, ParseModes(modes).value.0, ParseModes(modes).value.1))
  {
    var rest := ["OF"] + (Commas(of) + modes);
    assert OfWords(of) + modes == rest;
    assert rest[1..] == Commas(of) + modes;
    TakeCommas(of, modes);
    ParseHead(rest);
  }

  /** Past the leading FOR UPDATE: an OF list, or the locking modes alone. */
  lemma ParseHead(rest: seq<string>)
    ensures ParseWords(["", "FOR", "UPDATE"] + rest)
            == if |rest| > 0 && rest[0] == "OF" then
                 match TakeNames(rest[1..])
                 case None => None
                 case Some(p) => MapOption(ParseModes(p.1), (m: (bool, bool)) => (p.0, m.0, m.1))
               else MapOption(ParseModes(rest), (m: (bool, bool)) => ([], m.0, m.1))
  {
    var words := ["", "FOR", "UPDATE"] + rest;
    assert words[..3] == ["", "FOR", "UPDATE"] && words[3..] == rest;
  }

  lemma {:induction false} TakeCommas(names: seq<string>, after: seq<string>)
    requires |names| > 0 && PlainNames(names)
    ensures TakeNames(Commas(names) + after) == Some((names, after))
    decreases |names|
  {
    var w := names[0];
    if |names| == 1 {
      var words := Commas(names) + after;
      assert Commas(names) == [w];
      assert words[0] == w && words[1..] == after;
      assert ',' !in w;
      assert !(|w| > 0 && w[|w| - 1] == ',') by {
        if |w| > 0 {
          assert w[|w| - 1] in w;
        }
      }
    } else {
      var words := Commas(names) + after;
      TakeCommas(names[1..], after);
      assert Commas(names) == [w + ","] + Commas(names[1..]);
      assert words[0] == w + "," && words[1..] == Commas(names[1..]) + after;
      assert (w + ",")[|w|] == ',';
      assert (w + ",")[..|w|] == w;
      assert [w] + names[1..] == names;
    }
  }

  lemma {:induction false} WordsFree(of: seq<string>, nowait: bool, skipLocked: bool)
    requires PlainNames(of)
    ensures forall i :: 0 <= i < |ForUpdateWords(of, nowait, skipLocked)| ==> ' ' !in ForUpdateWords(of, nowait, skipLocked)[i]
  {
    if |of| > 0 {
      CommasFree(of);
    }
  }

  lemma {:induction false} CommasFree(names: seq<string>)
    requires |names| > 0 && PlainNames(names)
    ensures forall i :: 0 <= i < |Commas(names)| ==> ' ' !in Commas(names)[i]
    decreases |names|
  {
    if |names| > 1 {
      CommasFree(names[1..]);
      assert ' ' !in names[0] + ",";
    }
  }

  lemma {:induction false} SpacedAppend(a: seq<string>, b: seq<string>)
    ensures Spaced(a + b) == Spaced(a) + Spaced(b)
    decreases |a|
  {
    if |a| > 0 {
      SpacedAppend(a[1..], b);
      assert (a + b)[1..] == a[1..] + b;
    } else {
      assert a + b == b;
    }
  }

  lemma {:induction false} JoinSpaced(names: seq<string>)
    requires |names| > 0
    ensures " " + Join(names, ", ") == Spaced(Commas(names))
    decreases |names|
  {
    if |names| == 1 {
      assert Spaced(names[1..]) == "";
    } else {
      JoinSpaced(names[1..]);
      SpacedAppend([names[0] + ","], Commas(names[1..]));
      assert Spaced([names[0] + ","]) == " " + (names[0] + ",") + "";
    }
  }

  lemma {:induction false} ForUpdateSpaced(of: seq<string>, nowait: bool, skipLocked: bool)
    ensures ForUpdateClause(false, of, nowait, skipLocked) == Spaced(ForUpdateWords(of, nowait, skipLocked))
  {
    var a := ["FOR", "UPDATE"];
    var ofText := if |of| > 0 then " OF " + Join(of, ", ") else "";
    var modesText := (if nowait then " NOWAIT" else "") + (if skipLocked then " SKIP LOCKED" else "");
    SpacedAppend(a + OfWords(of), ModeWords(nowait, skipLocked));
    SpacedAppend(a, OfWords(of));
    OfPartSpaced(of);
    ModesSpaced(nowait, skipLocked);
    assert Spaced(a) == " FOR UPDATE" by {
      assert Spaced(["UPDATE"]) == " UPDATE" + Spaced([]);
    }
    assert Spaced(ForUpdateWords(of, nowait, skipLocked)) == (" FOR UPDATE" + ofText) + modesText;
    ClauseText(of, nowait, skipLocked);
  }

  /** The clause outside a subquery is FOR UPDATE, the OF part and the modes. */
  lemma ClauseText(of: seq<string>, nowait: bool, skipLocked: bool)
    ensures ForUpdateClause(false, of, nowait, skipLocked)
            == (" FOR UPDATE" + (if |of| > 0 then " OF " + Join(of, ", ") else ""))
               + ((if nowait then " NOWAIT" else "") + (if skipLocked then " SKIP LOCKED" else ""))
  {
  }

  lemma ModesSpaced(nowait: bool, skipLocked: bool)
    ensures Spaced(ModeWords(nowait, skipLocked))
            == (if nowait then " NOWAIT" else "") + (if skipLocked then " SKIP LOCKED" else "")
  {
    assert Spaced(["NOWAIT"]) == " NOWAIT" + Spaced([]);
    assert Spaced(["LOCKED"]) == " LOCKED" + Spaced([]);
    assert Spaced(["SKIP", "LOCKED"]) == " SKIP" + Spaced(["LOCKED"]);
    SpacedAppend(if nowait then ["NOWAIT"] else [], if skipLocked then ["SKIP", "LOCKED"] else []);
  }

  lemma {:induction false} OfPartSpaced(of: seq<string>)
    ensures Spaced(OfWords(of)) == if |of| > 0 then " OF " + Join(of, ", ") else ""
  {
    if |of| > 0 {
      JoinSpaced(of);
      SpacedAppend(["OF"], Commas(of));
      assert Spaced(["OF"]) == " OF" + Spaced([]);
      var j := Join(of, ", ");
      assert " OF " + j == " OF" + (" " + j);
    }
  }

  /** Splitting spaced words on spaces gives them back after an empty first piece. */
  lemma {:induction false} SplitSpaced(words: seq<string>)
    requires forall i :: 0 <= i < |words| ==> ' ' !in words[i]
    ensures Split(Spaced(words), ' ') == [""] + words
  {
    if |words| > 0 {
      var x := words[0] + Spaced(words[1..]);
      SplitWordThenSpaced(words[0], words[1..]);
      assert Split(x, ' ') == words;
      assert Spaced(words) == "" + [' '] + x;
      SplitAppend("", ' ', x);
    }
  }

  lemma {:induction false} SplitWordThenSpaced(w: string, rest: seq<string>)
    requires ' ' !in w && forall i :: 0 <= i < |rest| ==> ' ' !in rest[i]
    ensures Split(w + Spaced(rest), ' ') == [w] + rest
    decreases |rest|
  {
    if |rest| == 0 {
      assert w + Spaced(rest) == w;
      SplitNoSeparator(w, ' ');
    } else {
      var x := rest[0] + Spaced(rest[1..]);
      SplitWordThenSpaced(rest[0], rest[1..]);
      assert [rest[0]] + rest[1..] == rest;
      assert Split(x, ' ') == rest;
      assert w + Spaced(rest) == w + [' '] + x;
      SplitAppend(w, ' ', x);
    }
  }
}
