/** `_parse_identity_options` (sqlalchemy_tibero/base.py:1910-1945): the catalog's
    IDENTITY_OPTIONS text, prefixed with ALWAYS or BY DEFAULT by the column query,
    read back into the identity dictionary of a reflected column.
    The partner is `RenderCatalogIdentity`, the text the catalog holds for a
    given sequence generator: parsing it gives every option back. */
module Identity {
  import opened Wrappers
  import opened Strings

  /** The identity dictionary; a field is None when its key was never set. */
  datatype IdentityOptions = IdentityOptions(
    always: bool,
    onNull: bool,
    start: Option<int>,
    increment: Option<int>,
    maxValue: Option<int>,
    minValue: Option<int>,
    cycle: Option<bool>,
    cache: Option<int>,
    order: Option<bool>)

  /** The dictionary before any `key: value` part has been read. */
  function Initial(always: bool, onNull: bool): IdentityOptions {
    IdentityOptions(always, onNull, None, None, None, None, None, None, None)
  }

  /** Records one option. The key is found by substring test in a fixed order;
      integer options go through `int()`, flags are true iff the value is "Y",
      and an option that matches no key is ignored. */
  function ApplyOption(id: IdentityOptions, option: string, value: string): (r: Result<IdentityOptions>)
    ensures r.Failure? ==> r.error.ValueError?
    ensures r.Success? ==> r.value.always == id.always && r.value.onNull == id.onNull
  {
    if Contains(option, "START WITH") then
      var v :- ParseInt(value); Success(id.(start := Some(v)))
    else if Contains(option, "INCREMENT BY") then
      var v :- ParseInt(value); Success(id.(increment := Some(v)))
    else if Contains(option, "MAX_VALUE") then
      var v :- ParseInt(value); Success(id.(maxValue := Some(v)))
    else if Contains(option, "MIN_VALUE") then
      var v :- ParseInt(value); Success(id.(minValue := Some(v)))
    else if Contains(option, "CYCLE_FLAG") then
      Success(id.(cycle := Some(value == "Y")))
    else if Contains(option, "CACHE_SIZE") then
      var v :- ParseInt(value); Success(id.(cache := Some(v)))
    else if Contains(option, "ORDER_FLAG") then
      Success(id.(order := Some(value == "Y")))
    else
      Success(id)
  }

  /** `option, value = part.split(":")`: a part with other than exactly one
      colon fails to unpack. */
  function ApplyPart(id: IdentityOptions, part: string): (r: Result<IdentityOptions>)
    ensures multiset(part)[':'] != 1 ==> r == Failure(ValueError("wrong number of values to unpack"))
    ensures forall i :: 0 <= i < |part| && part[i] == ':' && multiset(part)[':'] == 1 ==>
              r == ApplyOption(id, part[..i], Strip(part[i + 1..]))
  {
    var pieces := Split(part, ':');
    SplitCount(part, ':');
    ColonPieces(part);
    if |pieces| != 2 then Failure(ValueError("wrong number of values to unpack"))
    else ApplyOption(id, pieces[0], Strip(pieces[1]))
  }

  lemma ColonPieces(part: string)
    ensures forall i :: 0 <= i < |part| && part[i] == ':' && multiset(part)[':'] == 1 ==>
              Split(part, ':') == [part[..i], part[i + 1..]]
  {
    forall i | 0 <= i < |part| && part[i] == ':' && multiset(part)[':'] == 1 {
      SplitAtOnly(part, ':', i);
    }
  }

  /** The loop over `parts[1:]`, stopping at the first exception. */
  function ApplyParts(id: IdentityOptions, parts: seq<string>): (r: Result<IdentityOptions>)
    ensures r.Failure? ==> r.error.ValueError?
    ensures r.Success? ==> r.value.always == id.always && r.value.onNull == id.onNull
    decreases |parts|
  {
    if |parts| == 0 then Success(id)
    else
      var next :- ApplyPart(id, parts[0]);
      ApplyParts(next, parts[1..])
  }

  /** `_parse_identity_options(identity_options, default_on_null)`. */
  function ParseIdentityOptions(options: string, defaultOnNull: Option<string>): (r: Result<IdentityOptions>)
    ensures r.Failure? ==> r.error.ValueError?
    ensures r.Success? ==> (r.value.always <==> Strip(Split(options, ',')[0]) == "ALWAYS")
    ensures r.Success? ==> (r.value.onNull <==> defaultOnNull == Some("YES"))
  {
    var parts := StripAll(Split(options, ','));
    ApplyParts(Initial(parts[0] == "ALWAYS", defaultOnNull == Some("YES")), parts[1..])
  }

  // ---------------------------------------------------------------------------
  // Partner: the text the catalog holds

  /** A sequence generator as the catalog describes it. */
  datatype CatalogIdentity = CatalogIdentity(
    always: bool, start: int, increment: int, maxValue: int, minValue: int,
    cycle: bool, cache: int, order: bool)

  function Flag(b: bool): string {
    if b then "Y" else "N"
  }

  /** One ` KEY: value` entry of the option list. */
  function Entry(key: string, value: string): string {
    " " + (key + ":" + (" " + value))
  }

  /** The option text: ALWAYS or BY DEFAULT, then every option of the catalog
      view in its order, including the four the dialect does not read. */
  function RenderCatalogIdentity(c: CatalogIdentity): string {
    Join(CatalogEntries(c), ",")
  }

  function CatalogEntries(c: CatalogIdentity): seq<string> {
    [ if c.always then "ALWAYS" else "BY DEFAULT",
      Entry("START WITH", IntToString(c.start)),
      Entry("INCREMENT BY", IntToString(c.increment)),
      Entry("MAX_VALUE", IntToString(c.maxValue)),
      Entry("MIN_VALUE", IntToString(c.minValue)),
      Entry("CYCLE_FLAG", Flag(c.cycle)),
      Entry("CACHE_SIZE", IntToString(c.cache)),
      Entry("ORDER_FLAG", Flag(c.order)),
      Entry("SCALE_FLAG", "N"),
      Entry("EXTEND_FLAG", "N"),
      Entry("SESSION_FLAG", "N"),
      Entry("KEEP_VALUE", "N") ]
  }

  /** Parsing the catalog text recovers every option the dialect reads. */
  lemma ParseRendered(c: CatalogIdentity, defaultOnNull: Option<string>)
    ensures ParseIdentityOptions(RenderCatalogIdentity(c), defaultOnNull)
         == Success(IdentityOptions(c.always, defaultOnNull == Some("YES"),
                                    Some(c.start), Some(c.increment), Some(c.maxValue), Some(c.minValue),
                                    Some(c.cycle), Some(c.cache), Some(c.order)))
  {
    var entries := CatalogEntries(c);
    EntriesSplit(c);
    var parts := StripAll(entries);
    EntriesStripped(c);
    var id0 := Initial(c.always, defaultOnNull == Some("YES"));
    assert parts[0] == "ALWAYS" <==> c.always;
    ReadEntries(c, id0);
  }

  /** Splitting the text on commas gives the entries back. */
  lemma EntriesSplit(c: CatalogIdentity)
    ensures Split(RenderCatalogIdentity(c), ',') == CatalogEntries(c)
  {
    var es := CatalogEntries(c);
    forall k | 0 <= k < |es|
      ensures ',' !in es[k]
    {
      if k == 0 {
      } else {
        var e := EntryOf(c, k);
        EntryTexts(c, k);
        EntryHasNoComma(e.0, e.1);
      }
    }
    SplitJoin(es, ',');
  }

  /** The key and value of entry `k` (for `k >= 1`). */
  function EntryOf(c: CatalogIdentity, k: int): (e: (string, string))
    requires 1 <= k <= 11
    ensures CatalogEntries(c)[k] == Entry(e.0, e.1)
  {
    match k
    case 1 => ("START WITH", IntToString(c.start))
    case 2 => ("INCREMENT BY", IntToString(c.increment))
    case 3 => ("MAX_VALUE", IntToString(c.maxValue))
    case 4 => ("MIN_VALUE", IntToString(c.minValue))
    case 5 => ("CYCLE_FLAG", Flag(c.cycle))
    case 6 => ("CACHE_SIZE", IntToString(c.cache))
    case 7 => ("ORDER_FLAG", Flag(c.order))
    case 8 => ("SCALE_FLAG", "N")
    case 9 => ("EXTEND_FLAG", "N")
    case 10 => ("SESSION_FLAG", "N")
    case 11 => ("KEEP_VALUE", "N")
  }

  /** Every entry is made of a key and a value. */
  lemma EntryTexts(c: CatalogIdentity, k: int)
    requires 1 <= k <= 11
    ensures KeyText(EntryOf(c, k).0) && ValueText(EntryOf(c, k).1)
  {
    match k
    case 1 => KeyTextsRead(); IntValue(c.start);
    case 2 => KeyTextsRead(); IntValue(c.increment);
    case 3 => KeyTextsRead(); IntValue(c.maxValue);
    case 4 => KeyTextsRead(); IntValue(c.minValue);
    case 5 => KeyTextsRead(); FlagValue(c.cycle);
    case 6 => KeyTextsRead(); IntValue(c.cache);
    case 7 => KeyTextsRead(); FlagValue(c.order);
    case _ => KeyTextsUnread(); FlagValue(false);
  }

  lemma KeyTextsRead()
    ensures KeyText("START WITH") && KeyText("INCREMENT BY") && KeyText("MAX_VALUE") && KeyText("MIN_VALUE")
    ensures KeyText("CYCLE_FLAG") && KeyText("CACHE_SIZE") && KeyText("ORDER_FLAG")
  {
    KeyTextsFirst();
    KeyTextsFlags();
  }

  lemma KeyTextsFirst()
    ensures KeyText("START WITH") && KeyText("INCREMENT BY") && KeyText("MAX_VALUE") && KeyText("MIN_VALUE")
  {
  }

  lemma KeyTextsFlags()
    ensures KeyText("CYCLE_FLAG") && KeyText("CACHE_SIZE") && KeyText("ORDER_FLAG")
  {
  }

  lemma KeyTextsUnread()
    ensures KeyText("SCALE_FLAG") && KeyText("EXTEND_FLAG") && KeyText("SESSION_FLAG") && KeyText("KEEP_VALUE")
  {
  }

  /** A key: no separator, no whitespace at its ends. */
  predicate KeyText(key: string) {
    ',' !in key && ':' !in key && |key| > 0 && NoSpaceAtEnds(key)
  }

  /** A value: no separator, no whitespace at its ends. */
  predicate ValueText(value: string) {
    ',' !in value && ':' !in value && |value| > 0 && NoSpaceAtEnds(value)
  }

  lemma IntValue(i: int)
    ensures ValueText(IntToString(i))
  {
    IntToStringChars(i);
  }

  lemma FlagValue(b: bool)
    ensures ValueText(Flag(b))
  {
  }

  lemma EntryHasNoComma(key: string, value: string)
    requires KeyText(key) && ValueText(value)
    ensures ',' !in Entry(key, value)
  {
  }

  /** Stripping an entry drops its leading space. */
  lemma EntryStripped(key: string, value: string)
    requires KeyText(key) && ValueText(value)
    ensures Strip(Entry(key, value)) == key + ":" + (" " + value)
  {
    var body := key + ":" + (" " + value);
    assert body[0] == key[0];
    assert body[|body| - 1] == value[|value| - 1];
    assert IsSpace(" "[0]);
    StripLeading(" ", body);
  }

  lemma EntriesStripped(c: CatalogIdentity)
    ensures var parts := StripAll(CatalogEntries(c));
            (parts[0] == "ALWAYS" <==> c.always)
            && forall k :: 1 <= k <= 11 ==>
                 parts[k] == EntryOf(c, k).0 + ":" + (" " + EntryOf(c, k).1)
  {
    var parts := StripAll(CatalogEntries(c));
    KindStripped(c);
    forall k | 1 <= k <= 11
      ensures parts[k] == EntryOf(c, k).0 + ":" + (" " + EntryOf(c, k).1)
    {
      EntryTexts(c, k);
      EntryStripped(EntryOf(c, k).0, EntryOf(c, k).1);
    }
  }

  /** The first entry reads as ALWAYS exactly for an always-generated identity. */
  lemma KindStripped(c: CatalogIdentity)
    ensures Strip(CatalogEntries(c)[0]) == "ALWAYS" <==> c.always
  {
    if c.always {
      assert NoSpaceAtEnds("ALWAYS");
      StripClean("ALWAYS");
    } else {
      assert NoSpaceAtEnds("BY DEFAULT");
      StripClean("BY DEFAULT");
      assert "BY DEFAULT" != "ALWAYS";
    }
  }

  /** A stripped entry splits on its colon into the key and the padded value. */
  lemma PartRead(id: IdentityOptions, key: string, value: string)
    requires KeyText(key) && ValueText(value)
    ensures ApplyPart(id, key + ":" + (" " + value)) == ApplyOption(id, key, value)
  {
    var part := key + ":" + (" " + value);
    var i := |key|;
    OneColon(key, " " + value);
    assert part[..i] == key && part[i + 1..] == " " + value;
    assert IsSpace(" "[0]);
    StripLeading(" ", value);
  }

  /** A key, a colon and a colon-free value hold exactly one colon. */
  lemma OneColon(key: string, value: string)
    requires ':' !in key && ':' !in value
    ensures var part := key + ":" + value;
            part[|key|] == ':' && multiset(part)[':'] == 1
  {
    var part := key + ":" + value;
    assert multiset(part) == multiset(key) + multiset(":") + multiset(value);
  }

  /** Reading the eleven entries in order. */
  lemma ReadEntries(c: CatalogIdentity, id0: IdentityOptions)
    ensures ApplyParts(id0, StripAll(CatalogEntries(c))[1..])
         == Success(id0.(start := Some(c.start), increment := Some(c.increment),
                         maxValue := Some(c.maxValue), minValue := Some(c.minValue),
                         cycle := Some(c.cycle), cache := Some(c.cache), order := Some(c.order)))
  {
    var parts := StripAll(CatalogEntries(c));
    EntriesStripped(c);
    var ids := StepIds(c, id0);
    forall k | 1 <= k <= 11
      ensures ApplyPart(ids[k - 1], parts[k]) == Success(ids[k])
    {
      var e := EntryOf(c, k);
      EntryTexts(c, k);
      PartRead(ids[k - 1], e.0, e.1);
      ReadEntry(c, id0, k);
    }
    ApplyPartsSteps(parts[1..], ids);
  }

  /** Entry `k` takes the dictionary from step `k - 1` to step `k`. */
  lemma ReadEntry(c: CatalogIdentity, id0: IdentityOptions, k: int)
    requires 1 <= k <= 11
    ensures var ids := StepIds(c, id0);
            ApplyOption(ids[k - 1], EntryOf(c, k).0, EntryOf(c, k).1) == Success(ids[k])
  {
    if k <= 4 {
      ReadIntEntry(c, id0, k);
    } else if k <= 7 {
      ReadLaterEntry(c, id0, k);
    } else {
      ReadUnreadEntry(c, id0, k);
    }
  }

  lemma ReadIntEntry(c: CatalogIdentity, id0: IdentityOptions, k: int)
    requires 1 <= k <= 4
    ensures var ids := StepIds(c, id0);
            ApplyOption(ids[k - 1], EntryOf(c, k).0, EntryOf(c, k).1) == Success(ids[k])
  {
    var ids := StepIds(c, id0);
    match k
    case 1 => ReadStart(ids[0], c.start);
    case 2 => ReadIncrement(ids[1], c.increment);
    case 3 => ReadMaxValue(ids[2], c.maxValue);
    case 4 => ReadMinValue(ids[3], c.minValue);
  }

  lemma ReadLaterEntry(c: CatalogIdentity, id0: IdentityOptions, k: int)
    requires 5 <= k <= 7
    ensures var ids := StepIds(c, id0);
            ApplyOption(ids[k - 1], EntryOf(c, k).0, EntryOf(c, k).1) == Success(ids[k])
  {
    var ids := StepIds(c, id0);
    match k
    case 5 => ReadCycle(ids[4], c.cycle);
    case 6 => ReadCache(ids[5], c.cache);
    case 7 => ReadOrder(ids[6], c.order);
  }

  lemma ReadUnreadEntry(c: CatalogIdentity, id0: IdentityOptions, k: int)
    requires 8 <= k <= 11
    ensures var ids := StepIds(c, id0);
            ApplyOption(ids[k - 1], EntryOf(c, k).0, EntryOf(c, k).1) == Success(ids[k])
  {
    var ids := StepIds(c, id0);
    match k
    case 8 => UnreadScaleFlag(); UnknownIgnored(ids[7], "SCALE_FLAG", "N");
    case 9 => UnreadLetterFree(); UnknownIgnored(ids[8], "EXTEND_FLAG", "N");
    case 10 => UnreadSessionFlag(); UnknownIgnored(ids[9], "SESSION_FLAG", "N");
    case 11 => UnreadLetterFree(); UnknownIgnored(ids[10], "KEEP_VALUE", "N");
  }

  /** The dictionary after each entry has been read. */
  function StepIds(c: CatalogIdentity, id0: IdentityOptions): (ids: seq<IdentityOptions>)
    ensures |ids| == 12
  {
    var id1 := id0.(start := Some(c.start));
    var id2 := id1.(increment := Some(c.increment));
    var id3 := id2.(maxValue := Some(c.maxValue));
    var id4 := id3.(minValue := Some(c.minValue));
    var id5 := id4.(cycle := Some(c.cycle));
    var id6 := id5.(cache := Some(c.cache));
    var id7 := id6.(order := Some(c.order));
    [id0, id1, id2, id3, id4, id5, id6, id7, id7, id7, id7, id7]
  }

  // Which key each option of the catalog text selects.

  lemma ReadStart(id: IdentityOptions, v: int)
    ensures ApplyOption(id, "START WITH", IntToString(v)) == Success(id.(start := Some(v)))
  {
    StartsWithContains("START WITH", "START WITH");
    IntRoundTrip(v);
  }

  lemma ReadIncrement(id: IdentityOptions, v: int)
    ensures ApplyOption(id, "INCREMENT BY", IntToString(v)) == Success(id.(increment := Some(v)))
  {
    ContainsHasChars("INCREMENT BY", "START WITH", 0);
    StartsWithContains("INCREMENT BY", "INCREMENT BY");
    IntRoundTrip(v);
  }

  lemma ReadMaxValue(id: IdentityOptions, v: int)
    ensures ApplyOption(id, "MAX_VALUE", IntToString(v)) == Success(id.(maxValue := Some(v)))
  {
    ContainsHasChars("MAX_VALUE", "START WITH", 0);
    ContainsHasChars("MAX_VALUE", "INCREMENT BY", 0);
    StartsWithContains("MAX_VALUE", "MAX_VALUE");
    IntRoundTrip(v);
  }

  lemma ReadMinValue(id: IdentityOptions, v: int)
    ensures ApplyOption(id, "MIN_VALUE", IntToString(v)) == Success(id.(minValue := Some(v)))
  {
    ContainsHasChars("MIN_VALUE", "START WITH", 0);
    ContainsHasChars("MIN_VALUE", "INCREMENT BY", 2);
    ContainsHasChars("MIN_VALUE", "MAX_VALUE", 2);
    StartsWithContains("MIN_VALUE", "MIN_VALUE");
    IntRoundTrip(v);
  }

  lemma ReadCycle(id: IdentityOptions, b: bool)
    ensures ApplyOption(id, "CYCLE_FLAG", Flag(b)) == Success(id.(cycle := Some(b)))
  {
    CycleKeySelected();
    FlagRead(b);
    CycleApplied(id, "CYCLE_FLAG", Flag(b));
  }

  /** The cycle key is the first key the text CYCLE_FLAG contains. */
  predicate SelectsCycle(option: string) {
    !Contains(option, "START WITH") && !Contains(option, "INCREMENT BY")
    && !Contains(option, "MAX_VALUE") && !Contains(option, "MIN_VALUE")
    && Contains(option, "CYCLE_FLAG")
  }

  lemma CycleKeySelected()
    ensures SelectsCycle("CYCLE_FLAG")
  {
    ContainsHasChars("CYCLE_FLAG", "START WITH", 0);
    ContainsHasChars("CYCLE_FLAG", "INCREMENT BY", 0);
    ContainsHasChars("CYCLE_FLAG", "MAX_VALUE", 0);
    ContainsHasChars("CYCLE_FLAG", "MIN_VALUE", 0);
    StartsWithContains("CYCLE_FLAG", "CYCLE_FLAG");
  }

  lemma CycleApplied(id: IdentityOptions, option: string, value: string)
    requires SelectsCycle(option)
    ensures ApplyOption(id, option, value) == Success(id.(cycle := Some(value == "Y")))
  {
  }

  /** A rendered flag reads back as the flag. */
  lemma FlagRead(b: bool)
    ensures (Flag(b) == "Y") == b
  {
    assert "N" != "Y";
  }

  lemma ReadCache(id: IdentityOptions, v: int)
    ensures ApplyOption(id, "CACHE_SIZE", IntToString(v)) == Success(id.(cache := Some(v)))
  {
    ContainsHasChars("CACHE_SIZE", "START WITH", 1);
    ContainsHasChars("CACHE_SIZE", "INCREMENT BY", 1);
    ContainsHasChars("CACHE_SIZE", "MAX_VALUE", 0);
    ContainsHasChars("CACHE_SIZE", "MIN_VALUE", 0);
    ContainsHasChars("CACHE_SIZE", "CYCLE_FLAG", 1);
    StartsWithContains("CACHE_SIZE", "CACHE_SIZE");
    IntRoundTrip(v);
  }

  lemma ReadOrder(id: IdentityOptions, b: bool)
    ensures ApplyOption(id, "ORDER_FLAG", Flag(b)) == Success(id.(order := Some(b)))
  {
    OrderKeySelected();
    FlagRead(b);
    OrderApplied(id, "ORDER_FLAG", Flag(b));
  }

  /** The order key is the first key the text ORDER_FLAG contains. */
  predicate SelectsOrder(option: string) {
    !Contains(option, "START WITH") && !Contains(option, "INCREMENT BY")
    && !Contains(option, "MAX_VALUE") && !Contains(option, "MIN_VALUE")
    && !Contains(option, "CYCLE_FLAG") && !Contains(option, "CACHE_SIZE")
    && Contains(option, "ORDER_FLAG")
  }

  lemma OrderKeySelected()
    ensures SelectsOrder("ORDER_FLAG")
  {
    ContainsHasChars("ORDER_FLAG", "START WITH", 0);
    ContainsHasChars("ORDER_FLAG", "INCREMENT BY", 0);
    ContainsHasChars("ORDER_FLAG", "MAX_VALUE", 0);
    ContainsHasChars("ORDER_FLAG", "MIN_VALUE", 0);
    ContainsHasChars("ORDER_FLAG", "CYCLE_FLAG", 0);
    ContainsHasChars("ORDER_FLAG", "CACHE_SIZE", 0);
    StartsWithContains("ORDER_FLAG", "ORDER_FLAG");
  }

  lemma OrderApplied(id: IdentityOptions, option: string, value: string)
    requires SelectsOrder(option)
    ensures ApplyOption(id, option, value) == Success(id.(order := Some(value == "Y")))
  {
  }

  /** The keys the dialect reads. */
  predicate SelectsNoKey(option: string) {
    !Contains(option, "START WITH") && !Contains(option, "INCREMENT BY")
    && !Contains(option, "MAX_VALUE") && !Contains(option, "MIN_VALUE")
    && !Contains(option, "CYCLE_FLAG") && !Contains(option, "CACHE_SIZE")
    && !Contains(option, "ORDER_FLAG")
  }

  /** An option that contains none of the keys leaves the dictionary unchanged,
      whatever its value. */
  lemma UnknownIgnored(id: IdentityOptions, option: string, value: string)
    requires SelectsNoKey(option)
    ensures ApplyOption(id, option, value) == Success(id)
  {
  }

  lemma UnreadScaleFlag()
    ensures SelectsNoKey("SCALE_FLAG")
  {
    ContainsHasChars("SCALE_FLAG", "START WITH", 1);
    ContainsHasChars("SCALE_FLAG", "INCREMENT BY", 0);
    ContainsHasChars("SCALE_FLAG", "MAX_VALUE", 0);
    ContainsHasChars("SCALE_FLAG", "MIN_VALUE", 0);
    ContainsHasChars("SCALE_FLAG", "CYCLE_FLAG", 1);
    ContainsHasChars("SCALE_FLAG", "CACHE_SIZE", 3);
    ContainsHasChars("SCALE_FLAG", "ORDER_FLAG", 0);
  }

  /** A name that has none of the keys' first letters contains no key;
      EXTEND_FLAG and KEEP_VALUE are such names. */
  lemma UnreadByFirstLetters(option: string)
    requires forall c :: c in "SIMCO" ==> c !in option
    ensures SelectsNoKey(option)
  {
    ContainsHasChars(option, "START WITH", 0);
    ContainsHasChars(option, "INCREMENT BY", 0);
    ContainsHasChars(option, "MAX_VALUE", 0);
    ContainsHasChars(option, "MIN_VALUE", 0);
    ContainsHasChars(option, "CYCLE_FLAG", 0);
    ContainsHasChars(option, "CACHE_SIZE", 0);
    ContainsHasChars(option, "ORDER_FLAG", 0);
  }

  lemma UnreadLetterFree()
    ensures SelectsNoKey("EXTEND_FLAG") && SelectsNoKey("KEEP_VALUE")
  {
    UnreadByFirstLetters("EXTEND_FLAG");
    UnreadByFirstLetters("KEEP_VALUE");
  }

  lemma UnreadSessionFlag()
    ensures SelectsNoKey("SESSION_FLAG")
  {
    ContainsHasChars("SESSION_FLAG", "START WITH", 1);
    ContainsHasChars("SESSION_FLAG", "INCREMENT BY", 2);
    ContainsHasChars("SESSION_FLAG", "MAX_VALUE", 0);
    ContainsHasChars("SESSION_FLAG", "MIN_VALUE", 0);
    ContainsHasChars("SESSION_FLAG", "CYCLE_FLAG", 0);
    ContainsHasChars("SESSION_FLAG", "CACHE_SIZE", 0);
    ContainsHasChars("SESSION_FLAG", "ORDER_FLAG", 1);
  }

  /** Reading parts one by one along a chain of intermediate dictionaries. */
  lemma {:induction false} ApplyPartsSteps(parts: seq<string>, ids: seq<IdentityOptions>)
    requires |ids| == |parts| + 1
    requires forall k :: 0 <= k < |parts| ==> ApplyPart(ids[k], parts[k]) == Success(ids[k + 1])
    ensures ApplyParts(ids[0], parts) == Success(ids[|parts|])
    decreases |parts|
  {
    if |parts| > 0 {
      ApplyPartsSteps(parts[1..], ids[1..]);
    }
  }
}
