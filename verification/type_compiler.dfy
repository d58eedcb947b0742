/** DDL type rendering of `TiberoTypeCompiler` (sqlalchemy_tibero/base.py:103-255):
    numeric precision/scale rules, the VARCHAR family, INTERVAL, TIMESTAMP and RAW.
    A small decoder for rendered type strings is the partner of every renderer:
    decoding what was rendered gives back the name and arguments. */
module TypeCompiler {
  import opened Wrappers
  import opened Strings

  /** `_supports_char_length` is a constant `True` property of the dialect (base.py:992-995). */
  const SupportsCharLength: bool := true

  /** The attributes `_generate_numeric` reads off a type object with
      `getattr(type_, ..., None)`. */
  datatype NumericType = NumericType(precision: Option<int>, scale: Option<int>, binaryPrecision: Option<int>)

  /** Python truthiness of an optional integer: present and non-zero. */
  predicate Truthy(o: Option<int>) {
    o.Some? && o.value != 0
  }

  /** A keyword argument that overrides the type's attribute when it is not None. */
  function Pick(kw: Option<int>, attr: Option<int>): Option<int> {
    if kw.Some? then kw else attr
  }

  /** `int(precision / 0.30103)`: the binary precision the error message suggests,
      truncated toward zero. */
  function EstimatedBinaryPrecision(p: int): int {
    if p >= 0 then p * 100000 / 30103 else -((-p) * 100000 / 30103)
  }

  // ---------------------------------------------------------------------------
  // Decoding rendered type strings: `NAME` or `NAME(arg, arg, ...)`.

  datatype TypeText = TypeText(name: string, args: seq<string>)

  function FirstIndexOf(s: string, c: char): (r: Option<nat>)
    ensures r.None? <==> c !in s
    ensures r.Some? ==> r.value < |s| && s[r.value] == c
    ensures r.Some? ==> forall k :: 0 <= k < r.value ==> s[k] != c
  {
    if |s| == 0 then None
    else if s[0] == c then Some(0)
    else
      var rest := FirstIndexOf(s[1..], c);
      if rest.None? then None else Some(rest.value + 1)
  }

  lemma FirstIndexOfAppend(a: string, c: char, b: string)
    requires c !in a
    ensures FirstIndexOf(a + [c] + b, c) == Some(|a|)
  {
    var s := a + [c] + b;
    forall k | 0 <= k < |a|
      ensures s[k] != c
    {
      assert s[k] == a[k];
    }
    assert s[|a|] == c;
  }

  /** Splits a rendered type into its name and its comma separated,
      stripped arguments; None when a `(` is not closed at the end. */
  function DecodeType(s: string): Option<TypeText> {
    match FirstIndexOf(s, '(')
    case None => Some(TypeText(s, []))
    case Some(i) =>
      if i + 1 < |s| && s[|s| - 1] == ')' then
        Some(TypeText(s[..i], StripAll(Split(s[i + 1..|s| - 1], ','))))
      else None
  }

  /** Reads decoded arguments as `(precision, scale)`. */
  function NumericArgs(args: seq<string>): Option<(Option<int>, Option<int>)> {
    if |args| == 0 then Some((None, None))
    else if |args| == 1 then
      (match ParseInt(args[0])
       case Success(p) => Some((Some(p), None))
       case Failure(_) => None)
    else if |args| == 2 then
      (match (ParseInt(args[0]), ParseInt(args[1]))
       case (Success(p), Success(q)) => Some((Some(p), Some(q)))
       case _ => None)
    else None
  }

  lemma DecodeBare(name: string)
    requires '(' !in name
    ensures DecodeType(name) == Some(TypeText(name, []))
  {
  }

  lemma DecodeWithArgs(name: string, pieces: seq<string>)
    requires '(' !in name
    requires |pieces| >= 1
    requires forall k :: 0 <= k < |pieces| ==> ',' !in pieces[k]
    ensures DecodeType(name + "(" + Join(pieces, ",") + ")") == Some(TypeText(name, StripAll(pieces)))
  {
    var inner := Join(pieces, ",");
    var s := name + "(" + inner + ")";
    assert s == name + ['('] + (inner + ")");
    FirstIndexOfAppend(name, '(', inner + ")");
    assert s[|name| + 1..|s| - 1] == inner;
    assert s[..|name|] == name;
    SplitJoin(pieces, ',');
  }

  lemma StripInt(i: int)
    ensures Strip(IntToString(i)) == IntToString(i)
    ensures Strip(" " + IntToString(i)) == IntToString(i)
  {
    var x := IntToString(i);
    IntToStringChars(i);
    StripClean(x);
    assert IsSpace(" "[0]);
    StripLeading(" ", x);
  }

  lemma IntHasNoComma(i: int)
    ensures ',' !in IntToString(i) && ',' !in " " + IntToString(i)
  {
    IntToStringChars(i);
  }

  /** `NAME(p)` decodes to precision p and no scale. */
  lemma DecodeOneInt(name: string, p: int)
    requires '(' !in name
    ensures var d := DecodeType(name + "(" + IntToString(p) + ")");
            d.Some? && d.value.name == name && NumericArgs(d.value.args) == Some((Some(p), None))
  {
    IntHasNoComma(p);
    assert Join([IntToString(p)], ",") == IntToString(p);
    DecodeWithArgs(name, [IntToString(p)]);
    StripInt(p);
    IntRoundTrip(p);
  }

  lemma JoinPair(a: string, b: string)
    ensures Join([a, " " + b], ",") == a + ", " + b
  {
    assert [a, " " + b][1..] == [" " + b];
    assert ", " == "," + " ";
  }

  /** `NAME(p, s)` decodes to precision p and scale s. */
  lemma DecodeTwoInts(name: string, p: int, q: int)
    requires '(' !in name
    ensures var d := DecodeType(name + "(" + (IntToString(p) + ", " + IntToString(q)) + ")");
            d.Some? && d.value.name == name && NumericArgs(d.value.args) == Some((Some(p), Some(q)))
  {
    var a, b := IntToString(p), IntToString(q);
    TwoIntPieces(p, q);
    assert forall k :: 0 <= k < |[a, " " + b]| ==> ',' !in [a, " " + b][k];
    DecodeWithArgs(name, [a, " " + b]);
    IntRoundTrip(p);
    IntRoundTrip(q);
  }

  /** The pieces `p, q` splits into, and what stripping them gives. */
  lemma TwoIntPieces(p: int, q: int)
    ensures Join([IntToString(p), " " + IntToString(q)], ",") == IntToString(p) + ", " + IntToString(q)
    ensures ',' !in IntToString(p) && ',' !in " " + IntToString(q)
    ensures StripAll([IntToString(p), " " + IntToString(q)]) == [IntToString(p), IntToString(q)]
  {
    var a, b := IntToString(p), IntToString(q);
    IntHasNoComma(p);
    IntHasNoComma(q);
    JoinPair(a, b);
    StripInt(p);
    StripInt(q);
    StripAllPair(a, " " + b);
  }

  lemma StripAllPair(x: string, y: string)
    ensures StripAll([x, y]) == [Strip(x), Strip(y)]
  {
    var ps := [x, y];
    var r := StripAll(ps);
    assert |r| == 2 && r[0] == Strip(ps[0]) && r[1] == Strip(ps[1]);
    assert r == [r[0], r[1]];
  }

  // ---------------------------------------------------------------------------
  // Numeric types

  /** The precision `_generate_numeric` renders: the binary precision when the
      caller requires one (FLOAT), the keyword or attribute precision otherwise. */
  function RenderedPrecision(t: NumericType, kwPrecision: Option<int>, requiresBinaryPrecision: bool): Option<int> {
    if requiresBinaryPrecision then t.binaryPrecision else Pick(kwPrecision, t.precision)
  }

  /** `_generate_numeric`: NAME, NAME(p) or NAME(p, s); a FLOAT given a
      decimal precision but no binary precision is refused with ArgumentError. */
  function GenerateNumeric(t: NumericType, name: string, kwPrecision: Option<int>, kwScale: Option<int>,
                           requiresBinaryPrecision: bool): (r: Result<string>)
    requires '(' !in name
    ensures r.Failure? <==>
              requiresBinaryPrecision && Truthy(Pick(kwPrecision, t.precision)) && t.binaryPrecision.None?
    ensures r.Failure? ==>
              var p := Pick(kwPrecision, t.precision).value;
              r.error == ArgumentError(p, EstimatedBinaryPrecision(p))
    ensures r.Success? ==>
              var d := DecodeType(r.value);
              var p := RenderedPrecision(t, kwPrecision, requiresBinaryPrecision);
              d.Some? && d.value.name == name
              && NumericArgs(d.value.args) == Some((p, if p.None? then None else Pick(kwScale, t.scale)))
  {
    var precision := Pick(kwPrecision, t.precision);
    if requiresBinaryPrecision && Truthy(precision) && t.binaryPrecision.None? then
      Failure(ArgumentError(precision.value, EstimatedBinaryPrecision(precision.value)))
    else
      var p := if requiresBinaryPrecision then t.binaryPrecision else precision;
      var scale := Pick(kwScale, t.scale);
      if p.None? then
        DecodeBare(name);
        Success(name)
      else if scale.None? then
        DecodeOneInt(name, p.value);
        Success(name + "(" + IntToString(p.value) + ")")
      else
        DecodeTwoInts(name, p.value, scale.value);
        Success(name + "(" + (IntToString(p.value) + ", " + IntToString(scale.value)) + ")")
  }

  /** The type classes whose `visit_*` method funnels into `_generate_numeric`. */
  datatype NumericKind = Float | Number | DoublePrecision | BinaryDouble | BinaryFloat | BigInteger

  function NumericName(k: NumericKind): string {
    match k
    case Float => "FLOAT"
    case Number => "NUMBER"
    case DoublePrecision => "DOUBLE PRECISION"
    case BinaryDouble => "BINARY_DOUBLE"
    case BinaryFloat => "BINARY_FLOAT"
    case BigInteger => "NUMBER"
  }

  /** `visit_FLOAT`, `visit_NUMBER`, `visit_DOUBLE_PRECISION`, `visit_BINARY_DOUBLE`,
      `visit_BINARY_FLOAT` and `visit_big_integer`: only FLOAT demands a binary
      precision, and a big integer is a NUMBER of precision 19. */
  function VisitNumeric(k: NumericKind, t: NumericType): (r: Result<string>)
    ensures r.Failure? <==> k == Float && Truthy(t.precision) && t.binaryPrecision.None?
    ensures r.Success? && k == BigInteger ==>
              var d := DecodeType(r.value);
              d.Some? && d.value.name == "NUMBER" && NumericArgs(d.value.args) == Some((Some(19), Pick(None, t.scale)))
    ensures r.Success? && k == Float ==>
              var d := DecodeType(r.value);
              d.Some? && d.value.name == "FLOAT"
              && NumericArgs(d.value.args) == Some((t.binaryPrecision, if t.binaryPrecision.None? then None else t.scale))
  {
    match k
    case Float => GenerateNumeric(t, "FLOAT", None, None, true)
    case BigInteger => GenerateNumeric(t, "NUMBER", Some(19), None, false)
    case _ => GenerateNumeric(t, NumericName(k), None, None, false)
  }

  // ---------------------------------------------------------------------------
  // Character types

  /** `_visit_varchar(type_, n, num)`: the unsized name, `VARCHAR<num>(len CHAR)`
      with character semantics for the non-national types, `<n>VARCHAR<num>(len)`
      otherwise. */
  function VisitVarchar(length: Option<int>, n: string, num: string): (r: string)
    requires n == "" || n == "N"
    requires num == "" || num == "2"
    ensures var d := DecodeType(r);
            d.Some? && d.value.name == n + "VARCHAR" + num
            && (!Truthy(length) <==> d.value.args == [])
            && (Truthy(length) ==>
                  |d.value.args| == 1
                  && (if n == "" then d.value.args[0] == IntToString(length.value) + " CHAR"
                      else ParseInt(d.value.args[0]) == Success(length.value)))
  {
    var name := n + "VARCHAR" + num;
    VarcharNameHasNoParen(n, num);
    if !Truthy(length) then
      DecodeBare(name);
      name
    else if n == "" && SupportsCharLength then
      DecodeCharLength(name, length.value);
      name + "(" + (IntToString(length.value) + " CHAR") + ")"
    else
      DecodeOneInt(name, length.value);
      name + "(" + IntToString(length.value) + ")"
  }

  lemma VarcharNameHasNoParen(n: string, num: string)
    requires n == "" || n == "N"
    requires num == "" || num == "2"
    ensures '(' !in n + "VARCHAR" + num
  {
    assert '(' !in "VARCHAR";
  }

  /** `NAME(len CHAR)` decodes to the single argument `len CHAR`. */
  lemma DecodeCharLength(name: string, len: int)
    requires '(' !in name
    ensures DecodeType(name + "(" + (IntToString(len) + " CHAR") + ")") == Some(TypeText(name, [IntToString(len) + " CHAR"]))
  {
    CharLengthPiece(len);
    DecodeWithArgs(name, [IntToString(len) + " CHAR"]);
  }

  /** `len CHAR` is a single piece that stripping leaves alone. */
  lemma CharLengthPiece(len: int)
    ensures var arg := IntToString(len) + " CHAR";
            ',' !in arg && Join([arg], ",") == arg && StripAll([arg]) == [arg]
  {
    var arg := IntToString(len) + " CHAR";
    IntToStringChars(len);
    assert ',' !in " CHAR";
    assert arg[|arg| - 1] == 'R';
    StripClean(arg);
    assert StripAll([arg]) == [arg];
  }

  /** `visit_RAW`: `RAW(len)` when a length is set, `RAW` otherwise. */
  function VisitRaw(length: Option<int>): (r: string)
    ensures var d := DecodeType(r);
            d.Some? && d.value.name == "RAW"
            && NumericArgs(d.value.args) == Some((if Truthy(length) then length else None, None))
  {
    if Truthy(length) then
      DecodeOneInt("RAW", length.value);
      "RAW" + "(" + IntToString(length.value) + ")"
    else
      DecodeBare("RAW");
      "RAW"
  }

  // ---------------------------------------------------------------------------
  // Date and time types

  /** `"(%d)" % p` when the precision is set, the empty string otherwise. */
  function OptionalPrecision(p: Option<int>): string {
    if p.Some? then "(" + IntToString(p.value) + ")" else ""
  }

  /** `visit_INTERVAL`: `INTERVAL DAY[(d)] TO SECOND[(s)]`. Removing the sizes,
      as reflection does, gives back the catalog name `INTERVAL DAY TO SECOND`. */
  function VisitInterval(dayPrecision: Option<int>, secondPrecision: Option<int>): (r: string)
    ensures r == "INTERVAL DAY TO SECOND" <==> dayPrecision.None? && secondPrecision.None?
    ensures NonNegative(dayPrecision) && NonNegative(secondPrecision) ==>
              RemoveSizes(r) == "INTERVAL DAY TO SECOND"
    ensures ParseInterval(r) == Some((dayPrecision, secondPrecision))
  {
    assert "INTERVAL DAY" + " TO SECOND" == "INTERVAL DAY TO SECOND";
    assert '(' !in "INTERVAL DAY" && '(' !in " TO SECOND";
    RemoveOptionalSizes("INTERVAL DAY", dayPrecision, " TO SECOND", secondPrecision);
    var r := "INTERVAL DAY" + OptionalPrecision(dayPrecision) + (" TO SECOND" + OptionalPrecision(secondPrecision));
    IntervalRead(dayPrecision, secondPrecision, r);
    r
  }

  /** The run of sign and digit characters that starts `s`. */
  function NumberRun(s: string): (n: nat)
    ensures n <= |s|
    decreases |s|
  {
    if |s| > 0 && (s[0] == '-' || IsDigit(s[0])) then 1 + NumberRun(s[1..]) else 0
  }

  /** Reads an optional `(p)` at the start of `t`: the precision, if there is
      one, and the text after it. */
  function ReadPrecision(t: string): Option<(Option<int>, string)> {
    if |t| == 0 || t[0] != '(' then Some((None, t))
    else
      var n := NumberRun(t[1..]);
      if n + 1 < |t| && t[n + 1] == ')' then
        match ParseInt(t[1..n + 1])
        case Success(v) => Some((Some(v), t[n + 2..]))
        case Failure(_) => None
      else None
  }

  /** Reads an INTERVAL type back into its day and second precisions. */
  function ParseInterval(text: string): Option<(Option<int>, Option<int>)> {
    if !StartsWith(text, "INTERVAL DAY") then None
    else
      match ReadPrecision(text[12..])
      case None => None
      case Some((day, rest)) =>
        if !StartsWith(rest, " TO SECOND") then None
        else
          match ReadPrecision(rest[10..])
          case Some((second, after)) => if after == "" then Some((day, second)) else None
          case None => None
  }

  lemma {:induction false} NumberRunOf(d: string, rest: string)
    requires forall k :: 0 <= k < |d| ==> d[k] == '-' || IsDigit(d[k])
    ensures NumberRun(d + ")" + rest) == |d|
    decreases |d|
  {
    if |d| > 0 {
      assert (d + ")" + rest)[1..] == d[1..] + ")" + rest;
      NumberRunOf(d[1..], rest);
    } else {
      assert (d + ")" + rest)[0] == ')';
    }
  }

  /** A rendered precision reads back, with the text that follows it. */
  lemma PrecisionRead(p: Option<int>, rest: string)
    requires |rest| == 0 || rest[0] != '('
    ensures ReadPrecision(OptionalPrecision(p) + rest) == Some((p, rest))
  {
    if p.Some? {
      var d := IntToString(p.value);
      IntToStringChars(p.value);
      IntRoundTrip(p.value);
      assert OptionalPrecision(p) + rest == "(" + (d + ")" + rest);
      ParenRead(d, rest, p.value);
    } else {
      assert OptionalPrecision(p) + rest == rest;
    }
  }

  lemma ParenRead(d: string, rest: string, v: int)
    requires forall k :: 0 <= k < |d| ==> d[k] == '-' || IsDigit(d[k])
    requires ParseInt(d) == Success(v)
    ensures ReadPrecision("(" + (d + ")" + rest)) == Some((Some(v), rest))
  {
    var t := "(" + (d + ")" + rest);
    NumberRunOf(d, rest);
    StartsConcat("(", d + ")" + rest);
    StartsConcat(d, ")" + rest);
    assert d + ")" + rest == d + (")" + rest);
    assert t[|d| + 1] == ')';
    assert t[1..|d| + 1] == d;
    assert t[|d| + 2..] == rest;
  }

  lemma IntervalRead(day: Option<int>, second: Option<int>, text: string)
    requires text == "INTERVAL DAY" + OptionalPrecision(day) + (" TO SECOND" + OptionalPrecision(second))
    ensures ParseInterval(text) == Some((day, second))
  {
    var tail := " TO SECOND" + OptionalPrecision(second);
    ConcatAssoc("INTERVAL DAY", OptionalPrecision(day), tail);
    StartsConcat("INTERVAL DAY", OptionalPrecision(day) + tail);
    PrecisionRead(day, tail);
    StartsConcat(" TO SECOND", OptionalPrecision(second));
    assert OptionalPrecision(second) + "" == OptionalPrecision(second);
    PrecisionRead(second, "");
    IntervalStages(text, day, tail, second);
  }

  lemma IntervalStages(text: string, day: Option<int>, tail: string, second: Option<int>)
    requires StartsWith(text, "INTERVAL DAY") && ReadPrecision(text[12..]) == Some((day, tail))
    requires StartsWith(tail, " TO SECOND") && ReadPrecision(tail[10..]) == Some((second, ""))
    ensures ParseInterval(text) == Some((day, second))
  {
  }

  predicate NonNegative(p: Option<int>) {
    p.None? || p.value >= 0
  }

  /** A size rendered with `OptionalPrecision` after parenthesis-free text is removed,
      together with whatever follows it. */
  lemma RemoveOptionalSize(a: string, p: Option<int>, rest: string)
    requires '(' !in a
    requires NonNegative(p)
    ensures RemoveSizes(a + OptionalPrecision(p) + rest) == a + RemoveSizes(rest)
  {
    if p.Some? {
      assert OptionalPrecision(p) == "(" + NatToString(p.value) + ")";
      RemoveSizesSkip(a, p.value, rest);
    } else {
      assert a + OptionalPrecision(p) + rest == a + rest;
      RemoveSizesPrefix(a, rest);
    }
  }

  /** Sizes rendered with `OptionalPrecision` between parenthesis-free text are removed. */
  lemma RemoveOptionalSizes(a: string, p: Option<int>, b: string, q: Option<int>)
    requires '(' !in a && '(' !in b
    ensures NonNegative(p) && NonNegative(q) ==>
              RemoveSizes(a + OptionalPrecision(p) + (b + OptionalPrecision(q))) == a + b
  {
    if NonNegative(p) && NonNegative(q) {
      RemoveOptionalSizeAtEnd(b, q);
      RemoveOptionalSize(a, p, b + OptionalPrecision(q));
    }
  }

  lemma RemoveOptionalSizeAtEnd(b: string, q: Option<int>)
    requires '(' !in b
    requires NonNegative(q)
    ensures RemoveSizes(b + OptionalPrecision(q)) == b
  {
    RemoveOptionalSize(b, q, "");
    assert b + OptionalPrecision(q) + "" == b + OptionalPrecision(q);
    assert b + "" == b;
  }

  /** `visit_TIMESTAMP`: local time zone wins over time zone. The containment
      tests reflection applies to the catalog type recover both flags. */
  function VisitTimestamp(localTimezone: bool, timezone: bool): (r: string)
    ensures Contains(r, "WITH LOCAL TIME ZONE") <==> localTimezone
    ensures Contains(r, "WITH TIME ZONE") <==> timezone && !localTimezone
  {
    TimestampNames();
    if localTimezone then "TIMESTAMP WITH LOCAL TIME ZONE"
    else if timezone then "TIMESTAMP WITH TIME ZONE"
    else "TIMESTAMP"
  }

  /** Which of the three timestamp names contain which time-zone marker. */
  lemma TimestampNames()
    ensures Contains("TIMESTAMP WITH LOCAL TIME ZONE", "WITH LOCAL TIME ZONE")
    ensures !Contains("TIMESTAMP WITH LOCAL TIME ZONE", "WITH TIME ZONE")
    ensures Contains("TIMESTAMP WITH TIME ZONE", "WITH TIME ZONE")
    ensures !Contains("TIMESTAMP WITH TIME ZONE", "WITH LOCAL TIME ZONE")
    ensures !Contains("TIMESTAMP", "WITH TIME ZONE") && !Contains("TIMESTAMP", "WITH LOCAL TIME ZONE")
  {
    LocalZoneName();
    ZoneName();
    PlainName();
    LocalIsNotPlainZone();
  }

  lemma LocalZoneName()
    ensures Contains("TIMESTAMP WITH LOCAL TIME ZONE", "WITH LOCAL TIME ZONE")
  {
    var s := "TIMESTAMP WITH LOCAL TIME ZONE";
    assert s[10..30] == "WITH LOCAL TIME ZONE";
    assert OccursAt(s, "WITH LOCAL TIME ZONE", 10);
  }

  lemma ZoneName()
    ensures Contains("TIMESTAMP WITH TIME ZONE", "WITH TIME ZONE")
    ensures !Contains("TIMESTAMP WITH TIME ZONE", "WITH LOCAL TIME ZONE")
  {
    var s := "TIMESTAMP WITH TIME ZONE";
    assert s[10..24] == "WITH TIME ZONE";
    assert OccursAt(s, "WITH TIME ZONE", 10);
    ZoneNotLocal();
  }

  lemma ZoneNotLocal()
    ensures !Contains("TIMESTAMP WITH TIME ZONE", "WITH LOCAL TIME ZONE")
  {
    ContainsHasChars("TIMESTAMP WITH TIME ZONE", "WITH LOCAL TIME ZONE", 5);
    assert 'L' !in "TIMESTAMP WITH TIME ZONE";
  }

  lemma PlainName()
    ensures !Contains("TIMESTAMP", "WITH TIME ZONE") && !Contains("TIMESTAMP", "WITH LOCAL TIME ZONE")
  {
    ContainsHasChars("TIMESTAMP", "WITH TIME ZONE", 0);
    ContainsHasChars("TIMESTAMP", "WITH LOCAL TIME ZONE", 0);
  }

  lemma LocalIsNotPlainZone()
    ensures !Contains("TIMESTAMP WITH LOCAL TIME ZONE", "WITH TIME ZONE")
  {
    var s := "TIMESTAMP WITH LOCAL TIME ZONE";
    var sub := "WITH TIME ZONE";
    assert 'W' !in s[..10];
    assert 'W' !in s[11..];
    forall i: nat ensures !OccursAt(s, sub, i) {
      if i + |sub| <= |s| {
        if i < 10 {
          assert s[i..i + |sub|][0] == s[..10][i];
        } else if i > 10 {
          assert s[i..i + |sub|][0] == s[11..][i - 11];
        } else {
          assert s[i..i + |sub|][5] == s[15];
        }
      }
    }
  }

  // ---------------------------------------------------------------------------
  // The renderings the dialect's type tests pin down.

  lemma PinnedRaw()
    ensures VisitRaw(None) == "RAW" && VisitRaw(Some(35)) == "RAW(35)"
  {
    assert IntToString(35) == "35";
    PinnedLiterals();
  }

  lemma PinnedVarchar()
    ensures VisitVarchar(Some(50), "", "") == "VARCHAR(50 CHAR)"
    ensures VisitVarchar(Some(50), "", "2") == "VARCHAR2(50 CHAR)"
    ensures VisitVarchar(Some(50), "N", "2") == "NVARCHAR2(50)"
    ensures VisitVarchar(None, "", "") == "VARCHAR" && VisitVarchar(None, "N", "2") == "NVARCHAR2"
  {
    assert IntToString(50) == "50";
    PinnedLiterals();
    assert VisitVarchar(Some(50), "", "") == "VARCHAR" + "(" + ("50" + " CHAR") + ")";
    assert VisitVarchar(Some(50), "", "2") == "VARCHAR2" + "(" + ("50" + " CHAR") + ")";
    assert VisitVarchar(Some(50), "N", "2") == "NVARCHAR2" + "(" + "50" + ")";
  }

  lemma PinnedInterval()
    ensures VisitInterval(None, None) == "INTERVAL DAY TO SECOND"
    ensures VisitInterval(Some(3), None) == "INTERVAL DAY(3) TO SECOND"
    ensures VisitInterval(None, Some(5)) == "INTERVAL DAY TO SECOND(5)"
    ensures VisitInterval(Some(2), Some(5)) == "INTERVAL DAY(2) TO SECOND(5)"
  {
    assert IntToString(2) == "2" && IntToString(3) == "3" && IntToString(5) == "5";
    PinnedLiterals();
  }

  lemma PinnedFloat()
    ensures VisitNumeric(Float, NumericType(None, None, None)) == Success("FLOAT")
    ensures VisitNumeric(Float, NumericType(Some(5), None, None)) == Failure(ArgumentError(5, 16))
    ensures VisitNumeric(BinaryDouble, NumericType(None, None, None)) == Success("BINARY_DOUBLE")
  {
    assert EstimatedBinaryPrecision(5) == 16;
  }

  /** The literal concatenations behind the pinned renderings. */
  lemma PinnedLiterals()
    ensures "RAW" + "(" + "35" + ")" == "RAW(35)"
    ensures "" + "VARCHAR" + "" == "VARCHAR" && "" + "VARCHAR" + "2" == "VARCHAR2"
    ensures "N" + "VARCHAR" + "2" == "NVARCHAR2"
    ensures "VARCHAR" + "(" + ("50" + " CHAR") + ")" == "VARCHAR(50 CHAR)"
    ensures "VARCHAR2" + "(" + ("50" + " CHAR") + ")" == "VARCHAR2(50 CHAR)"
    ensures "NVARCHAR2" + "(" + "50" + ")" == "NVARCHAR2(50)"
    ensures "INTERVAL DAY" + "" + (" TO SECOND" + "") == "INTERVAL DAY TO SECOND"
    ensures "INTERVAL DAY" + ("(" + "3" + ")") + (" TO SECOND" + "") == "INTERVAL DAY(3) TO SECOND"
    ensures "INTERVAL DAY" + "" + (" TO SECOND" + ("(" + "5" + ")")) == "INTERVAL DAY TO SECOND(5)"
    ensures "INTERVAL DAY" + ("(" + "2" + ")") + (" TO SECOND" + ("(" + "5" + ")")) == "INTERVAL DAY(2) TO SECOND(5)"
  {
  }
}
