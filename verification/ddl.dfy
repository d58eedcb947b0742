/** The column DDL of the Tibero DDL compiler (sqlalchemy_tibero/base.py:803-849):
    computed columns, identity columns and the identity option text. Each
    rendering is paired with a reader that takes the text apart again. */
module Ddl {
  import opened Wrappers
  import opened Strings

  // ---------------------------------------------------------------------------
  // Computed columns

  const ComputedPrefix: string := "GENERATED ALWAYS AS ("

  /** `visit_computed_column`: the expression (already rendered) in
      GENERATED ALWAYS AS (...); a stored column is refused, and an
      explicitly virtual one says so. */
  function VisitComputedColumn(sqltext: string, persisted: Option<bool>): (r: Result<string>)
    ensures r.Failure? <==> persisted == Some(true)
    ensures r.Failure? ==> r.error.CompileError?
    ensures r.Success? ==> StartsWith(r.value, ComputedPrefix)
  {
    if persisted == Some(true) then
      Failure(CompileError("Tibero computed columns do not support 'stored' persistence; "
                           + "set the 'persisted' flag to None or False for Tibero support."))
    else
      Success(ComputedPrefix + sqltext + ")" + (if persisted == Some(false) then " VIRTUAL" else ""))
  }

  /** Reads a computed column clause: its expression and whether VIRTUAL was given. */
  function ParseComputed(text: string): Option<(string, Option<bool>)> {
    if !StartsWith(text, ComputedPrefix) then None
    else
      var rest := text[|ComputedPrefix|..];
      if EndsWith(rest, ") VIRTUAL") then Some((rest[..|rest| - 9], Some(false)))
      else if EndsWith(rest, ")") then Some((rest[..|rest| - 1], None))
      else None
  }

  lemma {:induction false} ComputedRoundTrip(sqltext: string, persisted: Option<bool>)
    requires persisted != Some(true)
    ensures ParseComputed(VisitComputedColumn(sqltext, persisted).value) == Some((sqltext, persisted))
  {
    var text := VisitComputedColumn(sqltext, persisted).value;
    var rest := text[|ComputedPrefix|..];
    assert text[..|ComputedPrefix|] == ComputedPrefix;
    if persisted.Some? {
      assert !persisted.value;
      assert text == ComputedPrefix + (sqltext + ") VIRTUAL");
      assert rest == sqltext + ") VIRTUAL";
      assert rest[|rest| - 9..] == ") VIRTUAL";
      assert rest[..|rest| - 9] == sqltext;
    } else {
      assert text == ComputedPrefix + sqltext + ")" + "";
      assert text == ComputedPrefix + (sqltext + ")");
      assert rest == sqltext + ")";
      LastChar(rest, ") VIRTUAL");
      assert rest[|rest| - 1] == ')';
      assert EndsWith(rest, ")");
      assert rest[..|rest| - 1] == sqltext;
      assert ParseComputed(text) == Some((rest[..|rest| - 1], None));
    }
  }

  // ---------------------------------------------------------------------------
  // Identity options

  /** `get_identity_options`: the generic option text (SQLAlchemy's, given
      here as `generic`) with the Tibero spellings NOMINVALUE, NOMAXVALUE and
      NOCYCLE, ORDER or NOORDER appended when the order is given, stripped. */
  function GetIdentityOptions(generic: string, order: Option<bool>): (r: string)
    ensures order.Some? ==> EndsWith(r, " " + OrderWord(order.value)) || r == OrderWord(order.value)
    ensures order.None? && NoSpaceAtEnds(generic) && TiberoSpelled(generic) ==> r == generic
    ensures order.Some? && |generic| > 0 && NoSpaceAtEnds(generic) && TiberoSpelled(generic) ==>
              r == generic + " " + OrderWord(order.value)
    ensures TiberoSpelled(r)
  {
    var text := Rewrite(generic);
    TiberoSpelledUnchanged(generic);
    RewritesSpelled(generic);
    FinishSpelled(text, order);
    if order.None? then
      StripCleanIf(text);
      Strip(text)
    else
      OrderWordKept(text, OrderWord(order.value));
      OrderAppended(text, OrderWord(order.value));
      Strip(text + " " + OrderWord(order.value))
  }

  /** Text without surrounding whitespace keeps the appended word through `strip`. */
  lemma OrderAppended(text: string, word: string)
    requires word == "ORDER" || word == "NOORDER"
    ensures |text| > 0 && NoSpaceAtEnds(text) ==> Strip(text + " " + word) == text + " " + word
  {
    if |text| > 0 && NoSpaceAtEnds(text) {
      var s := text + " " + word;
      assert s[0] == text[0] && s[|s| - 1] == 'R';
      StripClean(s);
    }
  }

  /** The Tibero spellings of the negative options. */
  function Rewrite(generic: string): string {
    Replace(Replace(Replace(generic, MinPattern, "NOMINVALUE"), MaxPattern, "NOMAXVALUE"), CyclePattern, "NOCYCLE")
  }

  function OrderWord(order: bool): string {
    if order then "ORDER" else "NOORDER"
  }

  lemma {:induction false} StripCleanIf(s: string)
    ensures NoSpaceAtEnds(s) ==> Strip(s) == s
  {
    if NoSpaceAtEnds(s) {
      StripClean(s);
    }
  }

  lemma {:induction false} OrderWordKept(text: string, word: string)
    requires word == "ORDER" || word == "NOORDER"
    ensures EndsWith(Strip(text + " " + word), " " + word) || Strip(text + " " + word) == word
  {
    StripKeepsWord(text, word);
  }

  /** None of the generic negative spellings occurs. */
  predicate TiberoSpelled(s: string) {
    !Contains(s, MinPattern) && !Contains(s, MaxPattern) && !Contains(s, CyclePattern)
  }

  lemma {:induction false} TiberoSpelledUnchanged(s: string)
    ensures TiberoSpelled(s) ==> Rewrite(s) == s
  {
    if TiberoSpelled(s) {
      ReplaceAbsent(s, MinPattern, "NOMINVALUE");
      ReplaceAbsent(s, MaxPattern, "NOMAXVALUE");
      ReplaceAbsent(s, CyclePattern, "NOCYCLE");
    }
  }

  const MinPattern: string := "NO MINVALUE"
  const MaxPattern: string := "NO MAXVALUE"
  const CyclePattern: string := "NO CYCLE"

  /** NO MINVALUE after Tibero-spelled text becomes NOMINVALUE, the text
      before it is kept, and the rest is rewritten as on its own. */
  lemma RewriteMin(a: string, b: string)
    requires TiberoSpelled(a)
    ensures Rewrite(a + MinPattern + b) == a + "NOMINVALUE" + Rewrite(b)
  {
    var b1 := Replace(b, MinPattern, "NOMINVALUE");
    var b2 := Replace(b1, MaxPattern, "NOMAXVALUE");
    ReplaceFirst(a, MinPattern, "NOMINVALUE", b);
    ReplaceAfterWord(a, "NOMINVALUE", b1, MaxPattern, "NOMAXVALUE", 2);
    ReplaceAfterWord(a, "NOMINVALUE", b2, CyclePattern, "NOCYCLE", 2);
  }

  /** NO MAXVALUE after Tibero-spelled text becomes NOMAXVALUE, the text
      before it is kept, and the rest is rewritten as on its own. */
  lemma RewriteMax(a: string, b: string)
    requires TiberoSpelled(a)
    ensures Rewrite(a + MaxPattern + b) == a + "NOMAXVALUE" + Rewrite(b)
  {
    var b1 := Replace(b, MinPattern, "NOMINVALUE");
    var b2 := Replace(b1, MaxPattern, "NOMAXVALUE");
    ReplaceAfterWord(a, MaxPattern, b, MinPattern, "NOMINVALUE", 4);
    ReplaceFirst(a, MaxPattern, "NOMAXVALUE", b1);
    ReplaceAfterWord(a, "NOMAXVALUE", b2, CyclePattern, "NOCYCLE", 2);
  }

  /** NO CYCLE after Tibero-spelled text becomes NOCYCLE, the text before it
      is kept, and the rest is rewritten as on its own. */
  lemma RewriteCycle(a: string, b: string)
    requires TiberoSpelled(a)
    ensures Rewrite(a + CyclePattern + b) == a + "NOCYCLE" + Rewrite(b)
  {
    var b1 := Replace(b, MinPattern, "NOMINVALUE");
    var b2 := Replace(b1, MaxPattern, "NOMAXVALUE");
    ReplaceAfterWord(a, CyclePattern, b, MinPattern, "NOMINVALUE", 3);
    ReplaceAfterWord(a, CyclePattern, b1, MaxPattern, "NOMAXVALUE", 3);
    ReplaceFirst(a, CyclePattern, "NOCYCLE", b2);
  }

  /** Each generic negative spelling in otherwise Tibero-spelled, stripped
      option text comes out in its Tibero spelling, with the rest of the
      text kept. */
  lemma IdentityOptionsRewritten(a: string, b: string)
    requires TiberoSpelled(a) && TiberoSpelled(b)
    requires (|a| == 0 || !IsSpace(a[0])) && (|b| == 0 || !IsSpace(b[|b| - 1]))
    ensures GetIdentityOptions(a + MinPattern + b, None) == a + "NOMINVALUE" + b
    ensures GetIdentityOptions(a + MaxPattern + b, None) == a + "NOMAXVALUE" + b
    ensures GetIdentityOptions(a + CyclePattern + b, None) == a + "NOCYCLE" + b
  {
    TiberoSpelledUnchanged(b);
    RewriteMin(a, b);
    RewrittenText(a + MinPattern + b, a, "NOMINVALUE", b);
    RewriteMax(a, b);
    RewrittenText(a + MaxPattern + b, a, "NOMAXVALUE", b);
    RewriteCycle(a, b);
    RewrittenText(a + CyclePattern + b, a, "NOCYCLE", b);
  }

  /** The negative options SQLAlchemy spells with a space. */
  datatype NegativeOption = NoMinValue | NoMaxValue | NoCycle

  function Spelling(option: NegativeOption, tibero: bool): (w: string)
    ensures |w| > 0 && w[0] == 'N' && w[|w| - 1] == 'E'
  {
    match option
    case NoMinValue => if tibero then "NOMINVALUE" else MinPattern
    case NoMaxValue => if tibero then "NOMAXVALUE" else MaxPattern
    case NoCycle => if tibero then "NOCYCLE" else CyclePattern
  }

  /** Option text holding any number of negative options, each after a piece
      of other text, in the generic or the Tibero spelling. */
  function OptionText(parts: seq<(string, NegativeOption)>, tail: string, tibero: bool): string
    decreases |parts|
  {
    if |parts| == 0 then tail
    else parts[0].0 + Spelling(parts[0].1, tibero) + OptionText(parts[1..], tail, tibero)
  }

  /** One negative option after Tibero-spelled text is respelled, and the
      rest is rewritten as on its own. */
  lemma RewriteOption(a: string, option: NegativeOption, b: string)
    requires TiberoSpelled(a)
    ensures Rewrite(a + Spelling(option, false) + b) == a + Spelling(option, true) + Rewrite(b)
  {
    match option
    case NoMinValue => RewriteMin(a, b);
    case NoMaxValue => RewriteMax(a, b);
    case NoCycle => RewriteCycle(a, b);
  }

  /** The three replacements respell every negative option, however many
      there are, and keep all the other text. */
  lemma {:induction false} RewriteAll(parts: seq<(string, NegativeOption)>, tail: string)
    requires forall i :: 0 <= i < |parts| ==> TiberoSpelled(parts[i].0)
    requires TiberoSpelled(tail)
    ensures Rewrite(OptionText(parts, tail, false)) == OptionText(parts, tail, true)
    decreases |parts|
  {
    if |parts| == 0 {
      TiberoSpelledUnchanged(tail);
    } else {
      RewriteOption(parts[0].0, parts[0].1, OptionText(parts[1..], tail, false));
      RewriteAll(parts[1..], tail);
    }
  }

  /** Both spellings of the same options begin and end with the same character. */
  lemma {:induction false} SpellingsAlike(parts: seq<(string, NegativeOption)>, tail: string)
    ensures var g, t := OptionText(parts, tail, false), OptionText(parts, tail, true);
            (|g| == 0 <==> |t| == 0) && (|g| > 0 ==> g[0] == t[0] && g[|g| - 1] == t[|t| - 1])
    decreases |parts|
  {
    if |parts| > 0 {
      SpellingsAlike(parts[1..], tail);
    }
  }

  /** `get_identity_options` on text holding any number of generic negative
      options: the Tibero spelling of the same text, with the order word
      appended when the order is given. */
  lemma IdentityOptionsRespelled(parts: seq<(string, NegativeOption)>, tail: string, order: Option<bool>)
    requires forall i :: 0 <= i < |parts| ==> TiberoSpelled(parts[i].0)
    requires TiberoSpelled(tail)
    ensures var generic := OptionText(parts, tail, false);
            NoSpaceAtEnds(generic) ==>
              GetIdentityOptions(generic, order)
              == if order.None? then OptionText(parts, tail, true)
                 else if generic == "" then OrderWord(order.value)
                 else OptionText(parts, tail, true) + " " + OrderWord(order.value)
  {
    var generic, tibero := OptionText(parts, tail, false), OptionText(parts, tail, true);
    RewriteAll(parts, tail);
    SpellingsAlike(parts, tail);
    if NoSpaceAtEnds(generic) {
      assert NoSpaceAtEnds(tibero);
      StripClean(tibero);
      if order.Some? {
        OrderAfter(tibero, OrderWord(order.value));
      }
    }
  }

  /** The order word after unpadded text, or alone when there is none. */
  lemma OrderAfter(text: string, word: string)
    requires word == "ORDER" || word == "NOORDER"
    requires NoSpaceAtEnds(text)
    ensures Strip(text + " " + word) == if text == "" then word else text + " " + word
  {
    if text == "" {
      assert word[0] in "ON" && word[|word| - 1] == 'R';
      EmptyOrder(word);
      assert text + " " + word == " " + word;
    } else {
      OrderAppended(text, word);
    }
  }

  /** With no option text, only the order word is left. */
  lemma EmptyOrder(word: string)
    requires |word| > 0 && NoSpaceAtEnds(word)
    ensures Strip(" " + word) == word
  {
    StripLeading(" ", word);
  }

  lemma RewrittenText(generic: string, a: string, w: string, b: string)
    requires Rewrite(generic) == a + w + b
    requires |w| > 0 && w[0] == 'N' && w[|w| - 1] == 'E'
    requires (|a| == 0 || !IsSpace(a[0])) && (|b| == 0 || !IsSpace(b[|b| - 1]))
    ensures GetIdentityOptions(generic, None) == a + w + b
  {
    Unpadded(a, w, b);
  }

  /** A word starting with N and ending in E keeps the ends of its text unpadded. */
  lemma Unpadded(a: string, w: string, b: string)
    requires |w| > 0 && w[0] == 'N' && w[|w| - 1] == 'E'
    requires (|a| == 0 || !IsSpace(a[0])) && (|b| == 0 || !IsSpace(b[|b| - 1]))
    ensures Strip(a + w + b) == a + w + b
  {
    var s := a + w + b;
    assert s[0] == (if |a| > 0 then a[0] else w[0]);
    assert s[|s| - 1] == (if |b| > 0 then b[|b| - 1] else w[|w| - 1]);
    StripClean(s);
  }

  /** The three rewrites leave none of the generic spellings: no
      replacement can start or complete one. */
  lemma RewritesSpelled(generic: string)
    ensures TiberoSpelled(Rewrite(generic))
  {
    var o1 := Replace(generic, MinPattern, "NOMINVALUE");
    ReplaceKeepsOut(generic, MinPattern, "NOMINVALUE", MinPattern);
    var o2 := Replace(o1, MaxPattern, "NOMAXVALUE");
    ReplaceKeepsOut(o1, MaxPattern, "NOMAXVALUE", MinPattern);
    ReplaceKeepsOut(o1, MaxPattern, "NOMAXVALUE", MaxPattern);
    ReplaceKeepsOut(o2, CyclePattern, "NOCYCLE", MinPattern);
    ReplaceKeepsOut(o2, CyclePattern, "NOCYCLE", MaxPattern);
    ReplaceKeepsOut(o2, CyclePattern, "NOCYCLE", CyclePattern);
  }

  /** Appending the order word and stripping keep the Tibero spellings. */
  lemma FinishSpelled(text: string, order: Option<bool>)
    requires TiberoSpelled(text)
    ensures TiberoSpelled(Strip(if order.None? then text else text + " " + OrderWord(order.value)))
  {
    var s := text;
    if order.Some? {
      var u := " " + OrderWord(order.value);
      assert text + " " + OrderWord(order.value) == text + u;
      if order.value {
        assert u == " ORDER";
        AppendKeepsOut(text, " ORDER", MinPattern);
        AppendKeepsOut(text, " ORDER", MaxPattern);
        AppendKeepsOut(text, " ORDER", CyclePattern);
      } else {
        assert u == " NOORDER";
        AppendKeepsOut(text, " NOORDER", MinPattern);
        AppendKeepsOut(text, " NOORDER", MaxPattern);
        AppendKeepsOut(text, " NOORDER", CyclePattern);
      }
      s := text + u;
    }
    StripContains(s, MinPattern);
    StripContains(s, MaxPattern);
    StripContains(s, CyclePattern);
  }

  /** A last word without whitespace survives `strip`, with the space before
      it unless nothing else does. */
  lemma {:induction false} StripKeepsWord(text: string, word: string)
    requires |word| > 0 && !IsSpace(word[0]) && !IsSpace(word[|word| - 1])
    ensures var r := Strip(text + " " + word);
            EndsWith(r, " " + word) || r == word
  {
    var s := text + " " + word;
    var n := |s| - |word|;
    assert s[n..] == word && s[n - 1..] == " " + word;
    assert s[|s| - 1] == word[|word| - 1];
    RStripPadded(s, "");
    assert s + "" == s;
    var r := LStrip(s);
    assert Strip(s) == r;
    assert s[n] == word[0] && !IsSpace(s[n]);
    assert !(n < |s| - |r|);
    if |r| > |word| {
      assert r[|r| - |word| - 1..] == s[n - 1..];
    } else {
      assert r == s[n..];
    }
  }

  // ---------------------------------------------------------------------------
  // Identity columns

  /** `visit_identity_column`: GENERATED, the kind (ALWAYS, BY DEFAULT or
      nothing when `always` is None), ON NULL, AS IDENTITY, and the option
      text in parentheses when there is one. */
  function VisitIdentityColumn(always: Option<bool>, onNull: bool, options: string): (r: string)
    ensures StartsWith(r, "GENERATED ")
    ensures ParseIdentityColumn(r) == Some((always, onNull, options))
  {
    var r := "GENERATED " + (Kind(always) + ((if onNull then " ON NULL" else "") + (" AS IDENTITY" + OptionsPart(options))));
    IdentityColumnRead(always, onNull, options, r);
    r
  }

  /** Reads an identity column clause back. */
  function ParseIdentityColumn(text: string): Option<(Option<bool>, bool, string)> {
    if !StartsWith(text, "GENERATED ") then None
    else
      var (always, t1) := ParseKind(text[10..]);
      var (onNull, t2) := ParseOnNull(t1);
      match ParseAsIdentity(t2)
      case None => None
      case Some(options) => Some((always, onNull, options))
  }

  function ParseKind(t: string): (Option<bool>, string) {
    if StartsWith(t, "ALWAYS") then (Some(true), t[6..])
    else if StartsWith(t, "BY DEFAULT") then (Some(false), t[10..])
    else (None, t)
  }

  function ParseOnNull(t: string): (bool, string) {
    if StartsWith(t, " ON NULL") then (true, t[8..]) else (false, t)
  }

  function ParseAsIdentity(t: string): Option<string> {
    if !StartsWith(t, " AS IDENTITY") then None
    else
      var rest := t[12..];
      if rest == "" then Some("")
      else if |rest| >= 3 && rest[..2] == " (" && rest[|rest| - 1] == ')' then Some(rest[2..|rest| - 1])
      else None
  }

  function Kind(always: Option<bool>): string {
    if always.None? then "" else if always.value then "ALWAYS" else "BY DEFAULT"
  }

  function OptionsPart(options: string): string {
    if options != "" then " (" + options + ")" else ""
  }

  /** The reader takes every identity column clause apart again. */
  lemma {:induction false} IdentityColumnRead(always: Option<bool>, onNull: bool, options: string, text: string)
    requires text == "GENERATED " + (Kind(always) + ((if onNull then " ON NULL" else "") + (" AS IDENTITY" + OptionsPart(options))))
    ensures ParseIdentityColumn(text) == Some((always, onNull, options))
  {
    var rest := " AS IDENTITY" + OptionsPart(options);
    var tail := (if onNull then " ON NULL" else "") + rest;
    assert text[..10] == "GENERATED " && text[10..] == Kind(always) + tail;
    KindRead(always, tail);
    OnNullRead(onNull, rest);
    AsIdentityRead(options);
    ParseStages(text, always, tail, onNull, rest, options);
  }

  lemma {:induction false} ParseStages(text: string, always: Option<bool>, tail: string, onNull: bool, rest: string,
                                       options: string)
    requires StartsWith(text, "GENERATED ")
    requires ParseKind(text[10..]) == (always, tail)
    requires ParseOnNull(tail) == (onNull, rest)
    requires ParseAsIdentity(rest) == Some(options)
    ensures ParseIdentityColumn(text) == Some((always, onNull, options))
  {
  }

  lemma {:induction false} KindRead(always: Option<bool>, tail: string)
    requires StartsWith(tail, " ")
    ensures ParseKind(Kind(always) + tail) == (always, tail)
  {
    var t := Kind(always) + tail;
    if always.None? {
      assert t == tail;
      FirstChar(t, "ALWAYS");
      FirstChar(t, "BY DEFAULT");
      FirstChar(t, " ");
    } else if always.value {
      assert t[..6] == "ALWAYS" && t[6..] == tail;
    } else {
      assert t[..10] == "BY DEFAULT" && t[10..] == tail;
      FirstChar(t, "ALWAYS");
      FirstChar(t, "BY DEFAULT");
    }
  }

  lemma {:induction false} OnNullRead(onNull: bool, rest: string)
    requires StartsWith(rest, " AS IDENTITY")
    ensures ParseOnNull((if onNull then " ON NULL" else "") + rest) == (onNull, rest)
  {
    var t := (if onNull then " ON NULL" else "") + rest;
    if onNull {
      assert t[..8] == " ON NULL" && t[8..] == rest;
    } else {
      assert t == rest;
      FirstChars(t, " ON NULL", 1);
      FirstChars(t, " AS IDENTITY", 1);
    }
  }

  lemma {:induction false} AsIdentityRead(options: string)
    ensures ParseAsIdentity(" AS IDENTITY" + OptionsPart(options)) == Some(options)
  {
    var t := " AS IDENTITY" + OptionsPart(options);
    assert t[..12] == " AS IDENTITY" && t[12..] == OptionsPart(options);
    if options != "" {
      var rest := " (" + options + ")";
      assert rest[..2] == " (" && rest[2..|rest| - 1] == options;
    }
  }

  /** A string starting with a prefix starts with its character k. */
  lemma {:induction false} FirstChars(t: string, p: string, k: nat)
    requires k < |p|
    ensures StartsWith(t, p) ==> k < |t| && t[k] == p[k]
  {
    if StartsWith(t, p) {
      assert t[..|p|][k] == t[k];
    }
  }

  lemma {:induction false} FirstChar(t: string, p: string)
    requires |p| > 0
    ensures StartsWith(t, p) ==> |t| > 0 && t[0] == p[0]
  {
    FirstChars(t, p, 0);
  }

  /** A string ending with a suffix ends with its last character. */
  lemma {:induction false} LastChar(t: string, p: string)
    requires |p| > 0
    ensures EndsWith(t, p) ==> t[|t| - 1] == p[|p| - 1]
  {
    if EndsWith(t, p) {
      assert t[|t| - |p|..][|p| - 1] == t[|t| - 1];
    }
  }
}
