/** Database links in reflection queries. A catalog view name is written with
    a placeholder after it (sqlalchemy_tibero/dictionary.py:17); the
    reflection call turns its `dblink` argument into the `@link` suffix
    (sqlalchemy_tibero/base.py:1030-1033), and `pre_exec` puts that suffix in
    place of the placeholder (sqlalchemy_tibero/base.py:881-886). */
module ExecContext {
  import opened Wrappers
  import opened Strings

  const DbLinkPlaceholder: string := "__$sa_dblink$__"

  /** `_execute_reflection`: a non-empty link gets a leading "@" unless it has
      one; no link, or an empty one, becomes "". */
  function DbLinkOption(dblink: Option<string>): (r: string)
    ensures r == "" <==> dblink.None? || dblink.value == ""
    ensures r != "" ==> StartsWith(r, "@")
    ensures dblink.Some? && StartsWith(dblink.value, "@") ==> r == dblink.value
    ensures r != "" ==> r == dblink.value || r == "@" + dblink.value
    ensures dblink.Some? && dblink.value != "" && !StartsWith(dblink.value, "@") ==> r == "@" + dblink.value
  {
    if dblink.Some? && dblink.value != "" then
      if StartsWith(dblink.value, "@") then dblink.value else "@" + dblink.value
    else ""
  }

  /** Prefixing is done once: an already prefixed link is kept. */
  lemma DbLinkIdempotent(dblink: Option<string>)
    ensures DbLinkOption(Some(DbLinkOption(dblink))) == DbLinkOption(dblink)
  {
  }

  /** `pre_exec`: with a link option and a non-empty statement, every
      placeholder is replaced by the link suffix. */
  function PreExec(statement: string, dblink: Option<string>): (r: string)
    ensures statement == "" || dblink.None? ==> r == statement
    ensures !Contains(statement, DbLinkPlaceholder) ==> r == statement
  {
    if statement != "" && dblink.Some? then
      PlaceholderAbsent(statement, dblink.value);
      Replace(statement, DbLinkPlaceholder, dblink.value)
    else statement
  }

  lemma PlaceholderAbsent(statement: string, link: string)
    ensures !Contains(statement, DbLinkPlaceholder) ==> Replace(statement, DbLinkPlaceholder, link) == statement
  {
    if !Contains(statement, DbLinkPlaceholder) {
      ReplaceAbsent(statement, DbLinkPlaceholder, link);
    }
  }

  /** A catalog view name followed by the placeholder, then the rest of the
      statement: the view is read through the link. */
  lemma CatalogViewLinked(view: string, rest: string, dblink: Option<string>)
    requires '$' !in view && !Contains(rest, DbLinkPlaceholder)
    ensures PreExec(view + DbLinkPlaceholder + rest, Some(DbLinkOption(dblink)))
            == view + DbLinkOption(dblink) + rest
  {
    var link := DbLinkOption(dblink);
    ViewReplaced(view, rest, link);
    ReplaceAbsent(rest, DbLinkPlaceholder, link);
  }

  /** Every placeholder is replaced, not only the first: the first view's
      placeholder takes the link, and the rest of the statement is handled
      the same way. A statement naming several catalog views, each with its
      placeholder, thus reads every one of them through the link. */
  lemma ViewsLinked(view: string, rest: string, link: string)
    requires '$' !in view && rest != ""
    ensures PreExec(view + DbLinkPlaceholder + rest, Some(link)) == view + link + PreExec(rest, Some(link))
  {
    ViewReplaced(view, rest, link);
  }

  /** A statement of text pieces, each followed by `sep`, then a tail. */
  function Interleave(pieces: seq<string>, sep: string, tail: string): string
    decreases |pieces|
  {
    if |pieces| == 0 then tail else pieces[0] + sep + Interleave(pieces[1..], sep, tail)
  }

  /** However many catalog views a statement names, each placeholder after a
      '$'-free piece of text becomes the link. */
  lemma EveryViewLinked(pieces: seq<string>, tail: string, link: string)
    requires forall i :: 0 <= i < |pieces| ==> '$' !in pieces[i]
    requires !Contains(tail, DbLinkPlaceholder)
    ensures PreExec(Interleave(pieces, DbLinkPlaceholder, tail), Some(link)) == Interleave(pieces, link, tail)
  {
    InterleaveReplaced(pieces, tail, link);
  }

  lemma {:induction false} InterleaveReplaced(pieces: seq<string>, tail: string, link: string)
    requires forall i :: 0 <= i < |pieces| ==> '$' !in pieces[i]
    requires !Contains(tail, DbLinkPlaceholder)
    ensures Replace(Interleave(pieces, DbLinkPlaceholder, tail), DbLinkPlaceholder, link)
            == Interleave(pieces, link, tail)
    decreases |pieces|
  {
    if |pieces| == 0 {
      ReplaceAbsent(tail, DbLinkPlaceholder, link);
    } else {
      var rest := Interleave(pieces[1..], DbLinkPlaceholder, tail);
      assert forall i :: 0 <= i < |pieces[1..]| ==> pieces[1..][i] == pieces[i + 1];
      InterleaveReplaced(pieces[1..], tail, link);
      ViewReplaced(pieces[0], rest, link);
    }
  }

  lemma ViewReplaced(view: string, rest: string, link: string)
    requires '$' !in view
    ensures Replace(view + DbLinkPlaceholder + rest, DbLinkPlaceholder, link)
            == view + link + Replace(rest, DbLinkPlaceholder, link)
  {
    forall p: nat | p < |view|
      ensures !OccursAt(view + DbLinkPlaceholder, DbLinkPlaceholder, p)
    {
      PlaceholderNotInside(view, p);
    }
    ReplaceSplits(view, DbLinkPlaceholder, rest, link);
    ContainsHasChars(view, DbLinkPlaceholder, 2);
    ReplaceAbsent(view, DbLinkPlaceholder, link);
  }

  /** The placeholder cannot start inside a name without '$': its third
      character is '$' and its first two are not. */
  lemma PlaceholderNotInside(view: string, p: nat)
    requires '$' !in view && p < |view|
    ensures !OccursAt(view + DbLinkPlaceholder, DbLinkPlaceholder, p)
  {
    var s := view + DbLinkPlaceholder;
    if p + 2 < |view| {
      assert s[p + 2] == view[p + 2];
    } else {
      assert s[p + 2] == DbLinkPlaceholder[p + 2 - |view|];
    }
    assert s[p + 2] != '$';
    assert p + |DbLinkPlaceholder| <= |s| ==> s[p..p + |DbLinkPlaceholder|][2] == s[p + 2];
  }

  /** Without a link the placeholder simply disappears. */
  lemma CatalogViewLocal(view: string, rest: string)
    requires '$' !in view && !Contains(rest, DbLinkPlaceholder)
    ensures PreExec(view + DbLinkPlaceholder + rest, Some(DbLinkOption(None))) == view + rest
  {
    CatalogViewLinked(view, rest, None);
  }
}
