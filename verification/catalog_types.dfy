/** The type dispatch of the column loop in `get_multi_columns`
    (sqlalchemy_tibero/base.py:1827-1868): a catalog DATA_TYPE with its
    precision, scale and character length becomes a column type. NUMBER,
    FLOAT and the character types are read with their attributes, time-zone
    timestamps by substring, and every other name is looked up in
    `ischema_names` after its `(digits)` sizes are removed; a name that is not
    there becomes NULLTYPE. Reflection is the partner of the DDL type
    renderers: reflecting what the compiler rendered gives the type back. */
module CatalogTypes {
  import opened Wrappers
  import opened Strings
  import opened TypeCompiler

  datatype ColumnType =
    | IntegerType
    | NumberType(precision: Option<int>, scale: Option<int>)
    | DoublePrecisionType
    | RealType
    | FloatType(binaryPrecision: Option<int>)
    | CharType(name: string, length: Option<int>)   // VARCHAR, NVARCHAR, CHAR, NCHAR
    | TimestampType(timezone: bool, localTimezone: bool)
    | NamedType(name: string)                       // the `ischema_names` entry
    | NullType

  /** The keys of `ischema_names` (sqlalchemy_tibero/base.py:77-100). */
  const IschemaNames: set<string> := {
    "VARCHAR", "NVARCHAR", "CHAR", "NCHAR", "DATE", "NUMBER", "BLOB", "BFILE",
    "CLOB", "NCLOB", "TIMESTAMP", "TIMESTAMP WITH TIME ZONE",
    "TIMESTAMP WITH LOCAL TIME ZONE", "INTERVAL DAY TO SECOND", "RAW", "FLOAT",
    "DOUBLE PRECISION", "REAL", "LONG", "BINARY_DOUBLE", "BINARY_FLOAT", "ROWID" }

  /** The character types that take the catalog's CHAR_LENGTH. */
  const CharTypeNames: set<string> := {"VARCHAR", "NVARCHAR", "CHAR", "NCHAR"}

  const WithTimeZone: string := "WITH TIME ZONE"
  const WithLocalTimeZone: string := "WITH LOCAL TIME ZONE"

  /** The names read with their attributes rather than looked up. */
  predicate ReadWithAttributes(dataType: string) {
    dataType == "NUMBER" || dataType == "FLOAT" || dataType in CharTypeNames
  }

  /** The names a time-zone marker sends to TIMESTAMP. */
  predicate HasTimeZone(dataType: string) {
    Contains(dataType, WithTimeZone) || Contains(dataType, WithLocalTimeZone)
  }

  /** The column type reflected from one catalog row. Total: an unknown name
      is never an error. */
  function ReflectType(dataType: string, precision: Option<int>, scale: Option<int>,
                       charLength: Option<int>): (t: ColumnType)
    ensures t == NullType <==>
              !ReadWithAttributes(dataType) && !HasTimeZone(dataType) && RemoveSizes(dataType) !in IschemaNames
    ensures t.NamedType? ==> t.name in IschemaNames && t.name == RemoveSizes(dataType)
    ensures t.TimestampType? <==> !ReadWithAttributes(dataType) && HasTimeZone(dataType)
    ensures t.TimestampType? ==> (t.timezone <==> !t.localTimezone)
    ensures t.TimestampType? ==> (t.timezone <==> Contains(dataType, WithTimeZone))
    ensures t == IntegerType <==> dataType == "NUMBER" && precision.None? && scale == Some(0)
    ensures t.NumberType? <==> dataType == "NUMBER" && !(precision.None? && scale == Some(0))
    ensures t.NumberType? ==> t.precision == precision && t.scale == scale
    ensures t == DoublePrecisionType <==> dataType == "FLOAT" && precision == Some(126)
    ensures t == RealType <==> dataType == "FLOAT" && precision == Some(63)
    ensures t.FloatType? <==> dataType == "FLOAT" && precision != Some(126) && precision != Some(63)
    ensures t.FloatType? ==> t.binaryPrecision == precision
    ensures t.CharType? <==> dataType in CharTypeNames
    ensures t.CharType? ==> t.name == dataType && t.length == charLength
  {
    if dataType == "NUMBER" then
      if precision.None? && scale == Some(0) then IntegerType else NumberType(precision, scale)
    else if dataType == "FLOAT" then
      if precision == Some(126) then DoublePrecisionType
      else if precision == Some(63) then RealType
      else FloatType(precision)
    else if dataType in CharTypeNames then
      CharType(dataType, charLength)
    else if Contains(dataType, WithTimeZone) then
      TimestampType(true, false)
    else if Contains(dataType, WithLocalTimeZone) then
      TimestampType(false, true)
    else
      var name := RemoveSizes(dataType);
      if name in IschemaNames then NamedType(name) else NullType
  }

  // ---------------------------------------------------------------------------
  // Sizes do not change how a looked-up name is reflected

  /** An occurrence of `sub` in `a + b` lies inside `a` when no character of
      `b` occurs in `sub`. */
  lemma ContainsBeforeForeignSuffix(a: string, b: string, sub: string)
    requires |sub| > 0
    requires forall k :: 0 <= k < |b| ==> b[k] !in sub
    ensures Contains(a + b, sub) <==> Contains(a, sub)
  {
    var s := a + b;
    if Contains(s, sub) {
      var i: nat :| i <= |s| && OccursAt(s, sub, i);
      var j := if i < |a| then |a| else i;
      OccurrenceChars(s, sub, i, j);
      assert i + |sub| <= |a|;
      assert s[i..i + |sub|] == a[i..i + |sub|];
      assert OccursAt(a, sub, i);
    }
    if Contains(a, sub) {
      var i: nat :| i <= |a| && OccursAt(a, sub, i);
      assert s[i..i + |sub|] == a[i..i + |sub|];
      assert OccursAt(s, sub, i);
    }
  }

  /** Every position an occurrence covers holds a character of `sub`. */
  lemma OccurrenceChars(s: string, sub: string, i: nat, j: int)
    ensures OccursAt(s, sub, i) && i <= j < i + |sub| ==> s[j] in sub
  {
    if OccursAt(s, sub, i) && i <= j < i + |sub| {
      assert s[i..i + |sub|][j - i] == s[j];
    }
  }

  /** The characters of a rendered size `(n)`. */
  function Size(n: nat): string {
    "(" + NatToString(n) + ")"
  }

  lemma SizeChars(n: nat)
    ensures forall k :: 0 <= k < |Size(n)| ==> Size(n)[k] == '(' || Size(n)[k] == ')' || IsDigit(Size(n)[k])
  {
  }

  /** Neither time-zone marker holds a parenthesis or a digit. */
  lemma MarkersAvoidSizes(n: nat)
    ensures forall k :: 0 <= k < |Size(n)| ==> Size(n)[k] !in WithTimeZone && Size(n)[k] !in WithLocalTimeZone
  {
    SizeChars(n);
  }

  /** A name followed by a size is reflected as the name alone, unless the
      name is one that is read with its attributes. */
  lemma SizeIgnored(name: string, n: nat, precision: Option<int>, scale: Option<int>, charLength: Option<int>)
    requires '(' !in name
    requires !ReadWithAttributes(name)
    ensures ReflectType(name + Size(n), precision, scale, charLength) == ReflectType(name, None, None, None)
  {
    var s := name + Size(n);
    MarkersAvoidSizes(n);
    ContainsBeforeForeignSuffix(name, Size(n), WithTimeZone);
    ContainsBeforeForeignSuffix(name, Size(n), WithLocalTimeZone);
    SizeRemoved(name, n);
    SizedNotReadWithAttributes(name, n);
    SameLookup(s, name, precision, scale, charLength);
  }

  /** The size is all that `RemoveSizes` takes away. */
  lemma SizeRemoved(name: string, n: nat)
    requires '(' !in name
    ensures RemoveSizes(name + Size(n)) == RemoveSizes(name)
  {
    RemoveSizesSkip(name, n, "");
    assert name + Size(n) + "" == name + Size(n) && name + "" == name;
    RemoveSizesNoParen(name);
  }

  /** A name ending in `)` is never one read with its attributes. */
  lemma SizedNotReadWithAttributes(name: string, n: nat)
    ensures !ReadWithAttributes(name + Size(n))
  {
    var s := name + Size(n);
    assert s[|s| - 1] == ')';
    assert forall m :: m in CharTypeNames || m == "NUMBER" || m == "FLOAT" ==> |m| > 0 && m[|m| - 1] != ')';
  }

  /** Two names that agree on the tests of the lookup branch are reflected alike. */
  lemma SameLookup(d1: string, d2: string, precision: Option<int>, scale: Option<int>, charLength: Option<int>)
    requires !ReadWithAttributes(d1) && !ReadWithAttributes(d2)
    requires Contains(d1, WithTimeZone) <==> Contains(d2, WithTimeZone)
    requires Contains(d1, WithLocalTimeZone) <==> Contains(d2, WithLocalTimeZone)
    requires RemoveSizes(d1) == RemoveSizes(d2)
    ensures ReflectType(d1, precision, scale, charLength) == ReflectType(d2, None, None, None)
  {
  }

  // ---------------------------------------------------------------------------
  // Round trips with the DDL type compiler. The catalog is taken to record the
  // rendered name as DATA_TYPE and the rendered arguments as precision and scale.

  /** The catalog view of a rendered numeric type: its name, precision and scale. */
  function CatalogNumeric(rendered: string): Option<(string, Option<int>, Option<int>)> {
    match DecodeType(rendered)
    case None => None
    case Some(d) =>
      match NumericArgs(d.args)
      case None => None
      case Some(ps) => Some((d.name, ps.0, ps.1))
  }

  /** A NUMBER comes back with its precision, and with its scale whenever the
      precision was rendered. */
  lemma NumberRoundTrip(t: NumericType)
    ensures VisitNumeric(Number, t).Success?
    ensures var c := CatalogNumeric(VisitNumeric(Number, t).value);
            c.Some?
            && ReflectType(c.value.0, c.value.1, c.value.2, None)
               == NumberType(t.precision, if t.precision.None? then None else t.scale)
  {
  }

  /** A FLOAT comes back as DOUBLE PRECISION at binary precision 126, as REAL
      at 63, and as FLOAT with its binary precision otherwise. */
  lemma FloatRoundTrip(t: NumericType)
    requires !Truthy(t.precision) || t.binaryPrecision.Some?
    ensures var c := CatalogNumeric(VisitNumeric(Float, t).value);
            c.Some?
            && ReflectType(c.value.0, c.value.1, c.value.2, None)
               == (if t.binaryPrecision == Some(126) then DoublePrecisionType
                   else if t.binaryPrecision == Some(63) then RealType
                   else FloatType(t.binaryPrecision))
  {
  }

  /** `RAW(n)` is reflected as RAW: the size is removed before the lookup. */
  lemma RawRoundTrip(length: Option<int>)
    requires length.None? || length.value >= 0
    ensures ReflectType(VisitRaw(length), None, None, None) == NamedType("RAW")
  {
    RawName();
    if Truthy(length) {
      RawText(length.value);
      SizeIgnored("RAW", length.value, None, None, None);
    }
  }

  lemma RawText(n: nat)
    requires n != 0
    ensures VisitRaw(Some(n)) == "RAW" + Size(n)
  {
    assert Truthy(Some(n));
    assert IntToString(n) == NatToString(n);
  }

  lemma RawName()
    ensures '(' !in "RAW" && !ReadWithAttributes("RAW") && !HasTimeZone("RAW")
    ensures ReflectType("RAW", None, None, None) == NamedType("RAW")
  {
    ContainsHasChars("RAW", WithTimeZone, 2);
    ContainsHasChars("RAW", WithLocalTimeZone, 2);
    RemoveSizesNoParen("RAW");
  }

  /** `INTERVAL DAY(d) TO SECOND(s)` is reflected as INTERVAL DAY TO SECOND. */
  lemma IntervalRoundTrip(dayPrecision: Option<int>, secondPrecision: Option<int>)
    requires NonNegative(dayPrecision) && NonNegative(secondPrecision)
    ensures ReflectType(VisitInterval(dayPrecision, secondPrecision), None, None, None)
            == NamedType("INTERVAL DAY TO SECOND")
  {
    var r := VisitInterval(dayPrecision, secondPrecision);
    IntervalHasNoW(dayPrecision, secondPrecision);
    ContainsHasChars(r, WithTimeZone, 0);
    ContainsHasChars(r, WithLocalTimeZone, 0);
    InitialNotReadWithAttributes(r);
    assert RemoveSizes(r) in IschemaNames;
    LookedUp(r, None, None, None);
  }

  /** A name outside the attribute and time-zone branches is looked up. */
  lemma LookedUp(d: string, precision: Option<int>, scale: Option<int>, charLength: Option<int>)
    requires !ReadWithAttributes(d) && !HasTimeZone(d) && RemoveSizes(d) in IschemaNames
    ensures ReflectType(d, precision, scale, charLength) == NamedType(RemoveSizes(d))
  {
  }

  /** No `W` in a rendered interval: it holds no time-zone marker. */
  lemma IntervalHasNoW(dayPrecision: Option<int>, secondPrecision: Option<int>)
    ensures 'W' !in VisitInterval(dayPrecision, secondPrecision)
    ensures VisitInterval(dayPrecision, secondPrecision)[0] == 'I'
  {
    var d := OptionalPrecision(dayPrecision);
    var s := OptionalPrecision(secondPrecision);
    PrecisionHasNoW(dayPrecision);
    PrecisionHasNoW(secondPrecision);
    assert 'W' !in "INTERVAL DAY" && 'W' !in " TO SECOND";
    assert 'W' !in " TO SECOND" + s;
  }

  lemma PrecisionHasNoW(p: Option<int>)
    ensures 'W' !in OptionalPrecision(p)
  {
    if p.Some? {
      IntToStringChars(p.value);
    }
  }

  /** The three timestamp renderings come back with their time-zone flags. */
  lemma TimestampRoundTrip(localTimezone: bool, timezone: bool)
    ensures ReflectType(VisitTimestamp(localTimezone, timezone), None, None, None)
            == (if localTimezone then TimestampType(false, true)
                else if timezone then TimestampType(true, false)
                else NamedType("TIMESTAMP"))
  {
    var r := VisitTimestamp(localTimezone, timezone);
    if localTimezone || timezone {
      InitialNotReadWithAttributes(r);
    } else {
      PlainTimestamp();
    }
  }

  /** A name starting with T or I is none of NUMBER, FLOAT and the character types. */
  lemma InitialNotReadWithAttributes(r: string)
    requires |r| > 0 && (r[0] == 'T' || r[0] == 'I')
    ensures !ReadWithAttributes(r)
  {
  }

  lemma PlainTimestamp()
    ensures ReflectType("TIMESTAMP", None, None, None) == NamedType("TIMESTAMP")
  {
    TimestampNames();
    RemoveSizesNoParen("TIMESTAMP");
    InitialNotReadWithAttributes("TIMESTAMP");
  }
}
