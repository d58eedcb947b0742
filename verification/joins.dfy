/** The non-ANSI join rendering of the Tibero compiler
    (sqlalchemy_tibero/base.py:329-383), used when `use_ansi` is off: a join
    is written as a comma-separated FROM list, and the join conditions move
    to the WHERE clause, where every column of an outer join's right side in
    its condition gets the `(+)` outer-join operator. */
module Joins {
  import opened Wrappers
  import Strings

  /** The SQL expressions a join condition is made of. AND/OR lists are
      binary expressions here too. SQLAlchemy keeps them as clause lists,
      which the `visit_binary` hook does not visit, so the two differ only
      when a bare column is a direct operand of AND/OR: the model marks it. */
  datatype Expr =
    | Column(table: string, name: string)
    | Literal(text: string)
    | Binary(left: Expr, op: string, right: Expr)
    | OuterJoinColumn(column: Expr)          // `_OuterJoinColumn`, rendered with "(+)"

  /** The FROM elements: a table, a join, or a parenthesized grouping. */
  datatype From =
    | Table(name: string)
    | Join(left: From, right: From, onclause: Expr, isouter: bool)
    | Grouping(element: From)

  /** The tables a FROM element is derived from. */
  function Tables(f: From): (ts: set<string>)
    ensures f.Table? ==> ts == {f.name}
  {
    match f
    case Table(name) => {name}
    case Join(left, right, _, _) => Tables(left) + Tables(right)
    case Grouping(element) => Tables(element)
  }

  // ---------------------------------------------------------------------------
  // The outer-join operator

  /** The `visit_binary` pass of an outer join over its condition: in every
      comparison, the left operand gets "(+)" when it is a column of a table
      of the right side; otherwise the right operand does when it is one. */
  function MarkOuter(e: Expr, right: set<string>): (r: Expr)
    ensures r.Column? <==> e.Column?
    ensures e.Binary? <==> r.Binary?
    ensures e.Binary? ==> r.op == e.op
  {
    match e
    case Binary(l, op, rr) =>
      var l' := MarkOuter(l, right);
      var r' := MarkOuter(rr, right);
      if l'.Column? && l'.table in right then Binary(OuterJoinColumn(l'), op, r')
      else if r'.Column? && r'.table in right then Binary(l', op, OuterJoinColumn(r'))
      else Binary(l', op, r')
    case _ => e
  }

  /** Removes every outer-join operator. */
  function Unmark(e: Expr): (r: Expr)
    ensures NoOuter(r)
  {
    match e
    case Column(_, _) => e
    case Literal(_) => e
    case Binary(l, op, r) => Binary(Unmark(l), op, Unmark(r))
    case OuterJoinColumn(c) => Unmark(c)
  }

  predicate NoOuter(e: Expr) {
    match e
    case Column(_, _) => true
    case Literal(_) => true
    case Binary(l, _, r) => NoOuter(l) && NoOuter(r)
    case OuterJoinColumn(_) => false
  }

  /** Marking only adds outer-join operators: removing them gives the
      condition back. */
  lemma {:induction false} UnmarkMark(e: Expr, right: set<string>)
    ensures Unmark(MarkOuter(e, right)) == Unmark(e)
    ensures NoOuter(e) ==> Unmark(MarkOuter(e, right)) == e
  {
    UnmarkClean(e);
    match e
    case Binary(l, op, r) =>
      UnmarkMark(l, right);
      UnmarkMark(r, right);
    case _ =>
  }

  /** A condition without operators is its own unmarked form. */
  lemma {:induction false} UnmarkClean(e: Expr)
    ensures NoOuter(e) ==> Unmark(e) == e
  {
    match e
    case Binary(l, op, r) =>
      UnmarkClean(l);
      UnmarkClean(r);
    case _ =>
  }

  /** Every operator marking adds sits on a column of the right side. */
  predicate OuterOnlyOn(e: Expr, right: set<string>) {
    match e
    case Column(_, _) => true
    case Literal(_) => true
    case Binary(l, _, r) => OuterOnlyOn(l, right) && OuterOnlyOn(r, right)
    case OuterJoinColumn(c) => c.Column? && c.table in right
  }

  lemma {:induction false} MarksRightSideOnly(e: Expr, right: set<string>)
    requires NoOuter(e)
    ensures OuterOnlyOn(MarkOuter(e, right), right)
  {
    match e
    case Binary(l, op, r) =>
      MarksRightSideOnly(l, right);
      MarksRightSideOnly(r, right);
    case _ =>
  }

  /** A comparison of two columns gets one operator: on the left column when
      it belongs to the right side, else on the right column when that one
      does, and none when neither does. */
  lemma ComparisonMarked(a: Expr, op: string, b: Expr, right: set<string>)
    requires a.Column? && b.Column?
    ensures MarkOuter(Binary(a, op, b), right)
            == if a.table in right then Binary(OuterJoinColumn(a), op, b)
               else if b.table in right then Binary(a, op, OuterJoinColumn(b))
               else Binary(a, op, b)
  {
  }

  // ---------------------------------------------------------------------------
  // Collecting the join conditions

  /** The conditions of a join and of the joins nested in it, in pre-order:
      the join's own condition, then those of its left and of its right side.
      A grouping around anything but a join has no `isouter`. */
  function VisitJoin(j: From): (r: Result<seq<Expr>>)
    requires j.Join?
    ensures r.Success? <==> WellGrouped(j)
    ensures r.Success? ==> |r.value| > 0 && Unmark(r.value[0]) == Unmark(j.onclause)
    ensures r.Success? && !j.isouter ==> r.value[0] == j.onclause
    ensures r.Success? && j.isouter ==> r.value[0] == MarkOuter(j.onclause, Tables(j.right))
    decreases j, 1
  {
    var clause := if j.isouter then MarkOuter(j.onclause, Tables(j.right)) else j.onclause;
    UnmarkMark(j.onclause, Tables(j.right));
    var left :- VisitSide(j.left);
    var right :- VisitSide(j.right);
    Success([clause] + left + right)
  }

  function VisitSide(side: From): (r: Result<seq<Expr>>)
    ensures r.Success? <==> WellGrouped(side)
    decreases side, 2
  {
    match side
    case Table(_) => Success([])
    case Join(_, _, _, _) => VisitJoin(side)
    case Grouping(element) =>
      if element.Join? then VisitJoin(element) else Failure(AttributeError("isouter"))
  }

  /** The reference order: every join condition as written, the join's own
      first, then its left side's, then its right side's. */
  function OnClauses(f: From): seq<Expr> {
    match f
    case Table(_) => []
    case Join(left, right, on, _) => [on] + OnClauses(left) + OnClauses(right)
    case Grouping(element) => OnClauses(element)
  }

  /** Groupings sit only around joins, so every nested join is reached. */
  predicate WellGrouped(f: From) {
    match f
    case Table(_) => true
    case Join(left, right, _, _) => WellGrouped(left) && WellGrouped(right)
    case Grouping(element) => element.Join? && WellGrouped(element)
  }

  function UnmarkAll(es: seq<Expr>): (r: seq<Expr>)
    ensures |r| == |es| && forall i :: 0 <= i < |es| ==> r[i] == Unmark(es[i])
  {
    seq(|es|, i requires 0 <= i < |es| => Unmark(es[i]))
  }

  /** The collected conditions are the join conditions in pre-order, with
      outer-join operators added and nothing else changed; the collection
      fails exactly when a grouping holds something other than a join. */
  lemma {:induction false} VisitJoinOrder(j: From)
    requires j.Join?
    ensures VisitJoin(j).Success? ==> UnmarkAll(VisitJoin(j).value) == UnmarkAll(OnClauses(j))
    decreases j, 1
  {
    if VisitJoin(j).Success? {
      VisitSideOrder(j.left);
      VisitSideOrder(j.right);
      var clause := if j.isouter then MarkOuter(j.onclause, Tables(j.right)) else j.onclause;
      UnmarkMark(j.onclause, Tables(j.right));
      JoinOrderStep(clause, j.onclause, VisitSide(j.left).value, VisitSide(j.right).value,
                    OnClauses(j.left), OnClauses(j.right));
    }
  }

  /** One join's step: its condition first, then the two sides. */
  lemma JoinOrderStep(clause: Expr, on: Expr, l: seq<Expr>, r: seq<Expr>, l0: seq<Expr>, r0: seq<Expr>)
    requires Unmark(clause) == Unmark(on)
    requires UnmarkAll(l) == UnmarkAll(l0) && UnmarkAll(r) == UnmarkAll(r0)
    ensures UnmarkAll([clause] + l + r) == UnmarkAll([on] + l0 + r0)
  {
    UnmarkAllThree(clause, l, r);
    UnmarkAllThree(on, l0, r0);
  }

  lemma UnmarkAllThree(e: Expr, l: seq<Expr>, r: seq<Expr>)
    ensures UnmarkAll([e] + l + r) == [Unmark(e)] + UnmarkAll(l) + UnmarkAll(r)
  {
    UnmarkAllAppend([e] + l, r);
    UnmarkAllAppend([e], l);
  }

  lemma {:induction false} VisitSideOrder(side: From)
    ensures VisitSide(side).Success? ==> UnmarkAll(VisitSide(side).value) == UnmarkAll(OnClauses(side))
    decreases side, 2
  {
    match side
    case Table(_) =>
    case Join(_, _, _, _) => VisitJoinOrder(side);
    case Grouping(element) =>
      if element.Join? {
        VisitJoinOrder(element);
      }
  }

  lemma UnmarkAllAppend(a: seq<Expr>, b: seq<Expr>)
    ensures UnmarkAll(a + b) == UnmarkAll(a) + UnmarkAll(b)
  {
  }

  /** `_get_nonansi_join_whereclause`: the conditions of every join among the
      FROM elements, in order; None when there is none, which leaves the
      WHERE clause alone. Otherwise their conjunction is added to it. */
  function NonAnsiJoinWhere(froms: seq<From>): (r: Result<Option<seq<Expr>>>)
    ensures r.Success? <==> forall i :: 0 <= i < |froms| && froms[i].Join? ==> WellGrouped(froms[i])
    ensures r.Success? ==> (r.value.None? <==> forall i :: 0 <= i < |froms| ==> !froms[i].Join?)
    ensures r.Success? && r.value.Some? ==> UnmarkAll(r.value.value) == UnmarkAll(AllOnClauses(froms))
  {
    CollectOrder(froms);
    var clauses :- CollectClauses(froms);
    if |clauses| == 0 then Success(None) else Success(Some(clauses))
  }

  function CollectClauses(froms: seq<From>): (r: Result<seq<Expr>>)
    ensures r.Success? <==> forall i :: 0 <= i < |froms| && froms[i].Join? ==> WellGrouped(froms[i])
    ensures r.Success? ==> (|r.value| == 0 <==> forall i :: 0 <= i < |froms| ==> !froms[i].Join?)
    decreases |froms|
  {
    if |froms| == 0 then Success([])
    else
      var f := froms[0];
      assert forall i :: 1 <= i < |froms| ==> froms[i] == froms[1..][i - 1];
      var mine :- if f.Join? then VisitJoin(f) else Success([]);
      var rest :- CollectClauses(froms[1..]);
      Success(mine + rest)
  }

  /** The reference order over the FROM list: the join conditions of each
      join element in turn; other elements contribute none. */
  function AllOnClauses(froms: seq<From>): seq<Expr>
    decreases |froms|
  {
    if |froms| == 0 then []
    else (if froms[0].Join? then OnClauses(froms[0]) else []) + AllOnClauses(froms[1..])
  }

  /** The collected conditions are every join element's conditions, in FROM
      order and pre-order within each join, with outer-join operators added
      and nothing else changed. */
  lemma {:induction false} CollectOrder(froms: seq<From>)
    ensures CollectClauses(froms).Success? ==>
              UnmarkAll(CollectClauses(froms).value) == UnmarkAll(AllOnClauses(froms))
    decreases |froms|
  {
    if |froms| > 0 && CollectClauses(froms).Success? {
      var f := froms[0];
      CollectOrder(froms[1..]);
      var mine := if f.Join? then VisitJoin(f).value else [];
      if f.Join? {
        VisitJoinOrder(f);
      }
      UnmarkAllAppend(mine, CollectClauses(froms[1..]).value);
      UnmarkAllAppend(if f.Join? then OnClauses(f) else [], AllOnClauses(froms[1..]));
    }
  }

  // ---------------------------------------------------------------------------
  // Rendering

  /** `visit_join` without ANSI joins: the two sides separated by ", ", the
      parentheses of a grouped right side dropped. A grouping elsewhere keeps
      its parentheses. */
  function RenderFrom(f: From): string {
    match f
    case Table(name) => name
    case Join(left, right, _, _) =>
      RenderFrom(left) + ", " + RenderFrom(if right.Grouping? then right.element else right)
    case Grouping(element) => "(" + RenderFrom(element) + ")"
  }

  /** The tables in FROM-list order, looking through right-side groupings. */
  function Leaves(f: From): seq<string> {
    match f
    case Table(name) => [name]
    case Join(left, right, _, _) => Leaves(left) + Leaves(if right.Grouping? then right.element else right)
    case Grouping(element) => Leaves(element)
  }

  /** Only right sides are grouped. */
  predicate RightGroupedOnly(f: From) {
    match f
    case Table(_) => true
    case Join(left, right, _, _) =>
      RightGroupedOnly(left) && RightGroupedOnly(if right.Grouping? then right.element else right)
    case Grouping(_) => false
  }

  /** A join tree grouped only on its right sides is written as the plain
      comma-separated list of its tables. */
  lemma {:induction false} RenderLists(f: From)
    requires RightGroupedOnly(f)
    ensures |Leaves(f)| > 0
    ensures RenderFrom(f) == Strings.Join(Leaves(f), ", ")
  {
    match f
    case Table(name) =>
    case Join(left, right, _, _) =>
      var r := if right.Grouping? then right.element else right;
      RenderLists(left);
      RenderLists(r);
      JoinAppend(Leaves(left), Leaves(r), ", ");
  }

  lemma {:induction false} JoinAppend(a: seq<string>, b: seq<string>, sep: string)
    requires |a| > 0 && |b| > 0
    ensures Strings.Join(a + b, sep) == Strings.Join(a, sep) + sep + Strings.Join(b, sep)
    decreases |a|
  {
    if |a| == 1 {
      assert (a + b)[1..] == b;
    } else {
      JoinAppend(a[1..], b, sep);
      assert (a + b)[1..] == a[1..] + b;
    }
  }

  /** `visit_outer_join_column` and the expressions around it. */
  function RenderExpr(e: Expr): string {
    match e
    case Column(table, name) => table + "." + name
    case Literal(text) => text
    case Binary(l, op, r) => RenderExpr(l) + " " + op + " " + RenderExpr(r)
    case OuterJoinColumn(c) => RenderExpr(c) + "(+)"
  }

  /** An outer right side's column in a condition is written with "(+)". */
  lemma OuterColumnRendered(a: Expr, op: string, b: Expr, right: set<string>)
    requires a.Column? && b.Column? && a.table !in right && b.table in right
    ensures RenderExpr(MarkOuter(Binary(a, op, b), right))
            == a.table + "." + a.name + " " + op + " " + b.table + "." + b.name + "(+)"
  {
    assert MarkOuter(Binary(a, op, b), right) == Binary(a, op, OuterJoinColumn(b));
    var x := a.table + "." + a.name + " " + op + " ";
    assert RenderExpr(a) == a.table + "." + a.name;
    assert RenderExpr(OuterJoinColumn(b)) == RenderExpr(b) + "(+)";
    assert RenderExpr(b) == b.table + "." + b.name;
    assert RenderExpr(Binary(a, op, OuterJoinColumn(b))) == x + (b.table + "." + b.name + "(+)");
  }
}
