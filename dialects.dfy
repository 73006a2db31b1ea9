/**
 * The hooks TranslationItems leaves virtual and the overrides of its Ryujinx
 * variant: how a parsed JSON property enters the name -> value dictionary,
 * the header pairs written before the items, the filter applied to the JSON
 * text before it is written, the default sort option and the test used to
 * pick sample texts for a trial translation.
 *
 * A JSON object is given as its property list, (name, value) in document
 * order; a Dictionary<string, string> as its pairs in insertion order.
 */
module Dialects {
  import opened Wrappers
  import opened Strings
  import opened EnumerableExtensions
  import opened Locales
  import opened Items
  import opened Catalogs

  /** Which class the store is: the plain TranslationItems or RyujinxTranslationItems. */
  datatype Dialect = Standard | Ryujinx

  /** The property that holds the display name of the language in a Ryujinx file. */
  const LanguageName: string := "Language"

  /** The non-breaking space the Ryujinx filter writes in place of its escape. */
  const NoBreakSpace: char := 0xA0 as char

  /** The six-character escape of the non-breaking space, as the serialiser writes it. */
  const NoBreakSpaceEscape: string := "\\u00A0"

  // ------------------------------------------------------ the dictionary

  /** The names of a pair list, in order. */
  function KeysOf(d: seq<(string, string)>): (ks: seq<string>)
    ensures |ks| == |d|
    ensures forall i :: 0 <= i < |d| ==> ks[i] == d[i].0
  {
    seq(|d|, i requires 0 <= i < |d| => d[i].0)
  }

  /** The position of `name` in a pair list, if it is there. */
  function IndexOfKey(d: seq<(string, string)>, name: string): (r: Option<nat>)
    ensures r.Some? ==> r.value < |d| && d[r.value].0 == name
    ensures r.None? <==> name !in KeysOf(d)
  {
    if d == [] then None
    else if d[0].0 == name then Some(0)
    else
      assert KeysOf(d) == [d[0].0] + KeysOf(d[1..]);
      match IndexOfKey(d[1..], name)
      case None => None
      case Some(i) => Some(i + 1)
  }

  /** `items[name]` on a dictionary, when the name is present. */
  function DictGet(d: seq<(string, string)>, name: string): Option<string> {
    match IndexOfKey(d, name)
    case Some(i) => Some(d[i].1)
    case None => None
  }

  /** `items[name] = value`: a present name keeps its place and takes the new value; a new one is appended. */
  function DictSet(d: seq<(string, string)>, name: string, value: string): seq<(string, string)> {
    match IndexOfKey(d, name)
    case Some(i) => d[i := (name, value)]
    case None => d + [(name, value)]
  }

  /** With distinct names, the position of a name is its only position. */
  lemma IndexOfKeyUnique(d: seq<(string, string)>, name: string, j: nat)
    requires Distinct(KeysOf(d)) && j < |d| && d[j].0 == name
    ensures IndexOfKey(d, name) == Some(j)
  {
    var i := IndexOfKey(d, name).value;
    assert KeysOf(d)[i] == KeysOf(d)[j];
  }

  /**
   * Setting a name keeps the names distinct, puts a new name last, reads
   * back the value just set and leaves every other name as it was.
   */
  lemma DictSetSpec(d: seq<(string, string)>, name: string, value: string, k: string)
    requires Distinct(KeysOf(d))
    ensures var r := DictSet(d, name, value);
      && KeysOf(r) == (if name in KeysOf(d) then KeysOf(d) else KeysOf(d) + [name])
      && Distinct(KeysOf(r))
      && DictGet(r, k) == (if k == name then Some(value) else DictGet(d, k))
  {
    var r := DictSet(d, name, value);
    match IndexOfKey(d, name)
    case Some(i) =>
      assert KeysOf(r) == KeysOf(d);
      IndexOfKeyUnique(r, name, i);
      if k != name {
        match IndexOfKey(d, k)
        case Some(j) => IndexOfKeyUnique(r, k, j);
        case None => assert k !in KeysOf(r);
      }
    case None =>
      assert KeysOf(r) == KeysOf(d) + [name];
      IndexOfKeyUnique(r, name, |d|);
      if k != name {
        match IndexOfKey(d, k)
        case Some(j) => IndexOfKeyUnique(r, k, j);
        case None => assert k !in KeysOf(r);
      }
  }

  // ------------------------------------------------------ reading JSON

  /**
   * ProcessJson on one property: the base class stores it under its name;
   * the Ryujinx variant takes the `Language` property as the locale's
   * display name and stores the others.
   */
  function ProcessJson(dialect: Dialect, l: LocaleInfo, d: seq<(string, string)>, name: string, value: string): (LocaleInfo, seq<(string, string)>) {
    if dialect == Ryujinx && name == LanguageName then (l.(name := value), d)
    else (l, DictSet(d, name, value))
  }

  /** The locale and the dictionary after ProcessJson has seen every property, in order. */
  function LoadPairs(dialect: Dialect, l: LocaleInfo, props: seq<(string, string)>): (LocaleInfo, seq<(string, string)>)
    decreases |props|
  {
    if props == [] then (l, [])
    else
      var n := |props| - 1;
      var prev := LoadPairs(dialect, l, props[..n]);
      ProcessJson(dialect, prev.0, prev.1, props[n].0, props[n].1)
  }

  /** LoadFromJson: the loop over the properties of the parsed object. */
  method LoadFromJson(dialect: Dialect, l: LocaleInfo, props: seq<(string, string)>) returns (locale: LocaleInfo, items: seq<(string, string)>)
    ensures (locale, items) == LoadPairs(dialect, l, props)
  {
    locale, items := l, [];
    var i := 0;
    while i < |props|
      invariant 0 <= i <= |props|
      invariant (locale, items) == LoadPairs(dialect, l, props[..i])
    {
      assert props[..i + 1][..i] == props[..i];
      var next := ProcessJson(dialect, locale, items, props[i].0, props[i].1);
      locale, items := next.0, next.1;
      i := i + 1;
    }
    assert props[..i] == props;
  }

  /** Whether a property goes into the dictionary rather than into the locale. */
  predicate Stored(dialect: Dialect, name: string) {
    dialect == Standard || name != LanguageName
  }

  /** The names of the stored properties, in document order, repeats included. */
  function StoredNames(dialect: Dialect, props: seq<(string, string)>): seq<string>
    decreases |props|
  {
    if props == [] then []
    else
      var n := |props| - 1;
      StoredNames(dialect, props[..n]) + (if Stored(dialect, props[n].0) then [props[n].0] else [])
  }

  /** The value of the last property named `k`, if any. */
  function LastValue(props: seq<(string, string)>, k: string): Option<string>
    decreases |props|
  {
    if props == [] then None
    else if props[|props| - 1].0 == k then Some(props[|props| - 1].1)
    else LastValue(props[..|props| - 1], k)
  }

  /**
   * After LoadFromJson the dictionary holds the stored property names in
   * order of first appearance, each once.
   */
  lemma {:induction false} LoadPairsKeys(dialect: Dialect, l: LocaleInfo, props: seq<(string, string)>)
    ensures KeysOf(LoadPairs(dialect, l, props).1) == Dedup(StoredNames(dialect, props))
    ensures Distinct(KeysOf(LoadPairs(dialect, l, props).1))
    decreases |props|
  {
    if props != [] {
      var n := |props| - 1;
      LoadPairsKeys(dialect, l, props[..n]);
      var d0 := LoadPairs(dialect, l, props[..n]).1;
      var s0 := StoredNames(dialect, props[..n]);
      if Stored(dialect, props[n].0) {
        DictSetSpec(d0, props[n].0, props[n].1, props[n].0);
        assert StoredNames(dialect, props) == s0 + [props[n].0];
        assert (s0 + [props[n].0])[..|s0|] == s0;
      } else {
        assert StoredNames(dialect, props) == s0;
      }
    }
  }

  /**
   * Each stored name has the value of its last appearance: a later duplicate
   * overwrites the earlier value in its place; the Ryujinx `Language`
   * property is never stored.
   */
  lemma {:induction false} LoadPairsValue(dialect: Dialect, l: LocaleInfo, props: seq<(string, string)>, k: string)
    ensures DictGet(LoadPairs(dialect, l, props).1, k) == if Stored(dialect, k) then LastValue(props, k) else None
    decreases |props|
  {
    if props != [] {
      var n := |props| - 1;
      LoadPairsValue(dialect, l, props[..n], k);
      LoadPairsKeys(dialect, l, props[..n]);
      var d0 := LoadPairs(dialect, l, props[..n]).1;
      if Stored(dialect, props[n].0) {
        DictSetSpec(d0, props[n].0, props[n].1, k);
      }
    }
  }

  /**
   * The locale keeps its codes; the base class leaves it as it is, the
   * Ryujinx variant takes its display name from the last `Language` property.
   */
  lemma {:induction false} LoadPairsLocale(dialect: Dialect, l: LocaleInfo, props: seq<(string, string)>)
    ensures var locale := LoadPairs(dialect, l, props).0;
      && locale.language == l.language && locale.region == l.region
      && (dialect == Standard ==> locale == l)
      && (dialect == Ryujinx ==> locale.name == match LastValue(props, LanguageName) case Some(v) => v case None => l.name)
    decreases |props|
  {
    if props != [] {
      LoadPairsLocale(dialect, l, props[..|props| - 1]);
    }
  }

  /** A base-class object whose property names are distinct becomes a dictionary of exactly its properties. */
  lemma {:induction false} LoadPairsDistinct(l: LocaleInfo, props: seq<(string, string)>)
    requires Distinct(KeysOf(props))
    ensures LoadPairs(Standard, l, props) == (l, props)
    decreases |props|
  {
    if props != [] {
      var n := |props| - 1;
      var pre := props[..n];
      assert KeysOf(pre) == KeysOf(props)[..n];
      LoadPairsDistinct(l, pre);
      assert pre + [props[n]] == props;
    }
  }

  /**
   * UpdateLocaleForFilename on the file name without its extension: a stem
   * that splits on '_' into exactly two parts gives the language and the
   * region; any other stem leaves the locale as it was.
   */
  function UpdateLocaleForStem(l: LocaleInfo, stem: string): (r: LocaleInfo)
    ensures r.name == l.name
    ensures Occurrences(stem, Separator) == 1 ==> r.Id() == stem
    ensures Occurrences(stem, Separator) != 1 ==> r == l
  {
    var parts := Split(stem, Separator);
    if |parts| == 2 then
      assert Join(parts, Separator) == parts[0] + [Separator] + parts[1];
      l.(language := parts[0], region := parts[1])
    else l
  }

  /** The update agrees with LocaleInfo.Create on the stem, keeping the display name. */
  lemma UpdateLocaleIsCreate(l: LocaleInfo, stem: string)
    ensures UpdateLocaleForStem(l, stem) == match Create(stem, l.name) case Some(m) => m case None => l
  {
  }

  // ------------------------------------------------------ writing JSON

  /** GetAdditionalHeaderValues: none for the base class, the `Language` pair for Ryujinx. */
  function HeaderValues(dialect: Dialect, l: LocaleInfo): seq<(string, string)> {
    match dialect
    case Standard => []
    case Ryujinx => [(LanguageName, l.name)]
  }

  /** The names the header takes. */
  lemma HeaderNames(dialect: Dialect, l: LocaleInfo)
    ensures KeysOf(HeaderValues(dialect, l)) == if dialect == Ryujinx then [LanguageName] else []
  {
  }

  /**
   * FilterJsonBeforeWrite: nothing for the base class; Ryujinx writes every
   * escaped non-breaking space as the character itself, leaving no escape in
   * the body, and ends the text with the line ending of the options, or the
   * environment's when there are no options.
   */
  function FilterJson(dialect: Dialect, json: string, optionsNewLine: Option<string>, environmentNewLine: string): (r: string)
    ensures dialect == Standard ==> r == json
    ensures dialect == Ryujinx ==>
      var ending := if optionsNewLine.Some? then optionsNewLine.value else environmentNewLine;
      && |r| >= |ending| && r[|r| - |ending|..] == ending
      && NoOccurrence(r[..|r| - |ending|], NoBreakSpaceEscape)
  {
    match dialect
    case Standard => json
    case Ryujinx =>
      var ending := match optionsNewLine case Some(n) => n case None => environmentNewLine;
      var body := Replace(json, NoBreakSpaceEscape, [NoBreakSpace]);
      assert NoBreakSpace !in NoBreakSpaceEscape;
      ReplaceLeavesNoOccurrence(json, NoBreakSpaceEscape, NoBreakSpace);
      assert (body + ending)[|body|..] == ending;
      assert (body + ending)[..|body|] == body;
      body + ending
  }

  /** Writing the escape back into the filtered body gives the JSON text the serialiser produced. */
  lemma FilterJsonUndone(json: string, optionsNewLine: Option<string>, environmentNewLine: string)
    requires NoBreakSpace !in json
    ensures var ending := if optionsNewLine.Some? then optionsNewLine.value else environmentNewLine;
      var r := FilterJson(Ryujinx, json, optionsNewLine, environmentNewLine);
      |r| >= |ending| && Replace(r[..|r| - |ending|], [NoBreakSpace], NoBreakSpaceEscape) == json
  {
    var ending := if optionsNewLine.Some? then optionsNewLine.value else environmentNewLine;
    var body := Replace(json, NoBreakSpaceEscape, [NoBreakSpace]);
    assert FilterJson(Ryujinx, json, optionsNewLine, environmentNewLine) == body + ending;
    assert (body + ending)[..|body|] == body;
    ReplaceRoundTrip(json, NoBreakSpaceEscape, NoBreakSpace);
  }

  /** The sample test of the Ryujinx TestableTranslations: no placeholder brace and at least two spaces. */
  predicate RyujinxTestable(item: TranslationItem) {
    '{' !in item.text && Occurrences(item.text, ' ') >= 2
  }
}
