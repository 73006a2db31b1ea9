/**
 * The state of the translation store and the pure parts of TranslationItems:
 * the lookups, the validation of a locale, the write of one entry, the best
 * order heuristic and the queries (found, needed, ordered, required, testable).
 *
 * `locales` is the set of known locales, unique by id, in the order they were
 * added; `names` is the key order of the items dictionary and `items` maps each
 * key to its row: the inner locale -> item dictionary, as the items in the order
 * their locales were first added.
 */
module Catalogs {
  import opened Wrappers
  import opened Strings
  import opened EnumerableExtensions
  import opened Locales
  import opened Items
  import opened Sorting

  datatype SortOption = OriginalOrder | AlphabeticalOrder

  datatype Catalog = Catalog(locales: seq<LocaleInfo>, names: seq<string>, items: map<string, seq<TranslationItem>>)

  /** The catalog after an operation, with what the operation returned or threw. */
  datatype Outcome<T> = Outcome(catalog: Catalog, result: Result<T>)

  // ---------------------------------------------------------------- lookups

  /** Lookup of a locale in a locale-keyed collection: by id (Equals), first match. */
  function IndexOfLocale(ls: seq<LocaleInfo>, l: LocaleInfo): (r: Option<nat>)
    ensures r.Some? ==> r.value < |ls| && ls[r.value].Id() == l.Id()
    ensures r.Some? ==> forall i :: 0 <= i < r.value ==> ls[i].Id() != l.Id()
    ensures r.None? <==> forall i :: 0 <= i < |ls| ==> ls[i].Id() != l.Id()
  {
    if ls == [] then None
    else if ls[0].Id() == l.Id() then Some(0)
    else match IndexOfLocale(ls[1..], l)
      case None => None
      case Some(i) => Some(i + 1)
  }

  /** The keys of an inner dictionary: the locales of its items, in order. */
  function LocalesOf(row: seq<TranslationItem>): (ls: seq<LocaleInfo>)
    ensures |ls| == |row|
    ensures forall i :: 0 <= i < |row| ==> ls[i] == row[i].locale
  {
    seq(|row|, i requires 0 <= i < |row| => row[i].locale)
  }

  function RowIndex(row: seq<TranslationItem>, l: LocaleInfo): Option<nat> {
    IndexOfLocale(LocalesOf(row), l)
  }

  /** Dictionary.ContainsKey on an inner dictionary. */
  predicate HasLocale(row: seq<TranslationItem>, l: LocaleInfo) {
    RowIndex(row, l).Some?
  }

  /** The entry of a row for a locale: `forName.TryGetValue(locale, ...)`. */
  function RowGet(row: seq<TranslationItem>, l: LocaleInfo): (r: Option<TranslationItem>)
    ensures r.Some? ==> r.value in row && r.value.locale.Id() == l.Id()
  {
    match RowIndex(row, l)
    case Some(i) => Some(row[i])
    case None => None
  }

  /** GetItem(name, locale): `_items[name][locale]`, which throws when either key is missing. */
  function GetItem(c: Catalog, name: string, l: LocaleInfo): (r: Result<TranslationItem>)
    ensures r.Ok? <==> name in c.items && HasLocale(c.items[name], l)
    ensures r.Ok? ==> r.value in c.items[name] && r.value.locale.Id() == l.Id()
  {
    if name !in c.items then Err(NotFound)
    else match RowGet(c.items[name], l)
      case None => Err(NotFound)
      case Some(e) => Ok(e)
  }

  /** The getter of `this[name, locale]`: the stored text. */
  function GetText(c: Catalog, name: string, l: LocaleInfo): (r: Result<string>)
    ensures r.Ok? <==> GetItem(c, name, l).Ok?
    ensures r.Ok? ==> r.value == GetItem(c, name, l).value.text
  {
    match GetItem(c, name, l)
    case Ok(item) => Ok(item.text)
    case Err(e) => Err(e)
  }

  // -------------------------------------------------------------- invariant

  predicate UniqueIds(ls: seq<LocaleInfo>) {
    forall i, j :: 0 <= i < j < |ls| ==> ls[i].Id() != ls[j].Id()
  }

  /** A row is non-empty, one item per locale id, each under its key and with a known locale. */
  predicate RowValid(locales: seq<LocaleInfo>, k: string, row: seq<TranslationItem>) {
    && |row| > 0
    && UniqueIds(LocalesOf(row))
    && (forall i :: 0 <= i < |row| ==> row[i].name == k && row[i].locale in locales)
  }

  /**
   * The store invariant: the known locales are valid and unique by id; the key
   * order lists every key once; every key has at least one entry, and every
   * entry's locale is the known locale of that id, display name included.
   */
  ghost predicate Valid(c: Catalog) {
    && UniqueIds(c.locales)
    && (forall i :: 0 <= i < |c.locales| ==> c.locales[i].Valid())
    && Distinct(c.names)
    && (forall k :: k in c.items <==> k in c.names)
    && (forall k :: k in c.items ==> RowValid(c.locales, k, c.items[k]))
  }

  // ---------------------------------------------------------------- writes

  /**
   * ValidateLocale: an invalid locale, or a known id under another display
   * name, is refused; a known id gives back the stored locale; a new one is
   * registered.
   */
  function ValidateStep(c: Catalog, l: LocaleInfo): Outcome<LocaleInfo> {
    if !l.Valid() then Outcome(c, Err(InvalidLocale))
    else match IndexOfLocale(c.locales, l)
      case Some(i) =>
        if c.locales[i].name != l.name then Outcome(c, Err(LocaleMismatch))
        else Outcome(c, Ok(c.locales[i]))
      case None => Outcome(c.(locales := c.locales + [l]), Ok(l))
  }

  /** `_items[name] = []` when the key is new. */
  function Reserve(c: Catalog, name: string): (r: Catalog)
    ensures name in r.items
  {
    if name in c.items then c
    else c.(names := c.names + [name], items := c.items[name := []])
  }

  /**
   * Reserving keeps an existing key's row and the locales; a new key gets an
   * empty row at the end of the key order; every other key keeps its row.
   */
  lemma ReserveSpec(c: Catalog, name: string)
    ensures var r := Reserve(c, name);
      && r.locales == c.locales
      && (name in c.items ==> r == c)
      && (name !in c.items ==> r.names == c.names + [name] && r.items[name] == [])
      && (forall k :: k in r.items <==> k in c.items || k == name)
      && (forall k :: k in c.items ==> r.items[k] == c.items[k])
  {
  }

  /** `forName[locale] = item`: replace the entry of the same locale in place, or append. */
  function RowPut(row: seq<TranslationItem>, item: TranslationItem): seq<TranslationItem> {
    match RowIndex(row, item.locale)
    case Some(i) => row[i := item]
    case None => row + [item]
  }

  function Put(c: Catalog, item: TranslationItem): Catalog
    requires item.name in c.items
  {
    c.(items := c.items[item.name := RowPut(c.items[item.name], item)])
  }

  /**
   * AddOrReplace(name, locale, text, order): validate the locale, make room
   * for the key, resolve an automatic order with FindBestOrder, then store.
   */
  function AddOrReplaceStep(c: Catalog, name: string, l: LocaleInfo, text: string, order: real): Outcome<TranslationItem> {
    var v := ValidateStep(c, l);
    if v.result.Err? then Outcome(v.catalog, Err(v.result.error))
    else
      var stored := v.result.value;
      var c1 := Reserve(v.catalog, name);
      var o := if order == AutoOrder then FindBestOrder(c1, stored, name) else order;
      var item := TranslationItem(stored, name, text, o);
      Outcome(Put(c1, item), Ok(item))
  }

  /** AddOrReplace(item): the write of one item, with its own name, locale, text and order. */
  function WriteItem(c: Catalog, x: TranslationItem): Outcome<TranslationItem> {
    AddOrReplaceStep(c, x.name, x.locale, x.text, x.order)
  }

  /** One `write` per item in turn, collecting what they return and stopping at the first failure. */
  function WriteEach(c: Catalog, items: seq<TranslationItem>, write: (Catalog, TranslationItem) -> Outcome<TranslationItem>): Outcome<seq<TranslationItem>>
    decreases |items|
  {
    if items == [] then Outcome(c, Ok([]))
    else
      var prev := WriteEach(c, items[..|items| - 1], write);
      if prev.result.Err? then prev
      else
        var w := write(prev.catalog, items[|items| - 1]);
        if w.result.Err? then Outcome(w.catalog, Err(w.result.error))
        else Outcome(w.catalog, Ok(prev.result.value + [w.result.value]))
  }

  /** The bulk AddOrReplace: one write per input item, stopping at the first failure. */
  function AddOrReplaceAllStep(c: Catalog, items: seq<TranslationItem>): Outcome<seq<TranslationItem>> {
    WriteEach(c, items, WriteItem)
  }

  // --------------------------------------------------------- entries by locale

  /** The entry of key `k` for locale `l`, as a zero- or one-element sequence. */
  function EntryAt(items: map<string, seq<TranslationItem>>, k: string, l: LocaleInfo): seq<TranslationItem> {
    if k in items then
      match RowGet(items[k], l)
      case Some(e) => [e]
      case None => []
    else []
  }

  function EntriesOf(names: seq<string>, items: map<string, seq<TranslationItem>>, l: LocaleInfo): seq<TranslationItem>
    decreases |names|
  {
    if names == [] then []
    else EntriesOf(names[..|names| - 1], items, l) + EntryAt(items, names[|names| - 1], l)
  }

  /** `_items.Values.Where(v => v.ContainsKey(l)).Select(v => v[l])`: the entries of `l` in key order. */
  function Entries(c: Catalog, l: LocaleInfo): seq<TranslationItem> {
    EntriesOf(c.names, c.items, l)
  }

  // ------------------------------------------------------ the best order rule

  predicate OrderAtMost(a: TranslationItem, b: TranslationItem) {
    a.order <= b.order
  }

  /** `.OrderBy(i => i.Order)`: the entries of `l` by order; equal orders stay in key order. */
  function ByOrder(c: Catalog, l: LocaleInfo): seq<TranslationItem> {
    SortBy(Entries(c, l), OrderAtMost)
  }

  /** The largest order of a non-empty sequence of entries. */
  function MaxOrder(r: seq<TranslationItem>): real
    requires r != []
  {
    if |r| == 1 then r[0].order
    else
      var rest := MaxOrder(r[1..]);
      if r[0].order >= rest then r[0].order else rest
  }

  /** MaxOrder is the largest order of the entries, and one of them has it. */
  lemma {:induction false} MaxOrderSpec(r: seq<TranslationItem>)
    requires r != []
    ensures forall i :: 0 <= i < |r| ==> r[i].order <= MaxOrder(r)
    ensures exists i :: 0 <= i < |r| && r[i].order == MaxOrder(r)
  {
    if |r| > 1 {
      MaxOrderSpec(r[1..]);
      assert forall i :: 1 <= i < |r| ==> r[i] == r[1..][i - 1];
      if r[0].order < MaxOrder(r[1..]) {
        var i :| 0 <= i < |r[1..]| && r[1..][i].order == MaxOrder(r[1..]);
        assert r[i + 1].order == MaxOrder(r);
      } else {
        assert r[0].order == MaxOrder(r);
      }
    } else {
      assert r[0].order == MaxOrder(r);
    }
  }

  /** `name.CountMatching(item.Name)`: the common prefix length of the new key and an entry's key (CountMatchingIsCommonPrefix). */
  function Matching(name: string, e: TranslationItem): nat {
    CommonPrefix(name, e.name)
  }

  /** The largest prefix match of `name` over `r` (0 for no entries). */
  function MaxMatching(r: seq<TranslationItem>, name: string): nat {
    if r == [] then 0
    else
      var rest := MaxMatching(r[1..], name);
      if Matching(name, r[0]) >= rest then Matching(name, r[0]) else rest
  }

  /** MaxMatching is the longest match over the entries, and one of them has it. */
  lemma {:induction false} MaxMatchingSpec(r: seq<TranslationItem>, name: string)
    ensures forall i :: 0 <= i < |r| ==> Matching(name, r[i]) <= MaxMatching(r, name)
    ensures r != [] ==> exists i :: 0 <= i < |r| && Matching(name, r[i]) == MaxMatching(r, name)
  {
    if r != [] {
      MaxMatchingSpec(r[1..], name);
      assert forall i :: 1 <= i < |r| ==> r[i] == r[1..][i - 1];
      if Matching(name, r[0]) < MaxMatching(r[1..], name) {
        var i :| 0 <= i < |r[1..]| && Matching(name, r[1..][i]) == MaxMatching(r[1..], name);
        assert Matching(name, r[i + 1]) == MaxMatching(r, name);
      }
    }
  }

  /** The first index from `from` on whose key matches `m` long and sorts at or after `name`. */
  function FirstAtOrAfter(r: seq<TranslationItem>, name: string, m: nat, from: nat): (f: Option<nat>)
    requires from <= |r|
    ensures f.Some? ==> from <= f.value < |r|
    decreases |r| - from
  {
    if from == |r| then None
    else if Matching(name, r[from]) == m && Compare(r[from].name, name) >= 0 then Some(from)
    else FirstAtOrAfter(r, name, m, from + 1)
  }

  /** FirstAtOrAfter finds the first index from `from` on matching `m` long at or after `name`, or says there is none. */
  lemma {:induction false} FirstAtOrAfterSpec(r: seq<TranslationItem>, name: string, m: nat, from: nat)
    requires from <= |r|
    ensures var f := FirstAtOrAfter(r, name, m, from);
      && (f.Some? ==> Matching(name, r[f.value]) == m && Compare(r[f.value].name, name) >= 0)
      && (f.Some? ==> forall j :: from <= j < f.value && Matching(name, r[j]) == m ==> Compare(r[j].name, name) < 0)
      && (f.None? ==> forall j :: from <= j < |r| && Matching(name, r[j]) == m ==> Compare(r[j].name, name) < 0)
    decreases |r| - from
  {
    if from < |r| && !(Matching(name, r[from]) == m && Compare(r[from].name, name) >= 0) {
      FirstAtOrAfterSpec(r, name, m, from + 1);
    }
  }

  /** The last index below `n` whose key matches `m` long. */
  function LastMatchingBefore(r: seq<TranslationItem>, name: string, m: nat, n: nat): (f: Option<nat>)
    requires n <= |r|
    ensures f.Some? ==> f.value < n
    decreases n
  {
    if n == 0 then None
    else if Matching(name, r[n - 1]) == m then Some(n - 1)
    else LastMatchingBefore(r, name, m, n - 1)
  }

  /** LastMatchingBefore finds the last index below `n` matching `m` long, or says there is none. */
  lemma {:induction false} LastMatchingBeforeSpec(r: seq<TranslationItem>, name: string, m: nat, n: nat)
    requires n <= |r|
    ensures var f := LastMatchingBefore(r, name, m, n);
      && (f.Some? ==> Matching(name, r[f.value]) == m)
      && (f.Some? ==> forall j :: f.value < j < n ==> Matching(name, r[j]) != m)
      && (f.None? ==> forall j :: 0 <= j < n ==> Matching(name, r[j]) != m)
    decreases n
  {
    if n > 0 && Matching(name, r[n - 1]) != m {
      LastMatchingBeforeSpec(r, name, m, n - 1);
    }
  }

  /**
   * `firstAfter`: among the best-matching entries, the index of the first whose
   * key sorts at or after `name`, else one past the last best-matching entry.
   */
  function FirstAfter(r: seq<TranslationItem>, name: string, m: nat): (f: nat)
    requires r != []
    ensures f <= |r|
  {
    match FirstAtOrAfter(r, name, m, 0)
    case Some(i) => i
    case None =>
      match LastMatchingBefore(r, name, m, |r|)
      case Some(j) => j + 1
      case None => |r|
  }

  /**
   * The body of FindBestOrder over the entries already sorted by order: the
   * order value that places a new key next to the existing key it shares the
   * longest prefix with.
   */
  function BestOrderIn(r: seq<TranslationItem>, name: string): real {
    if r == [] then 1.0
    else
      var endOrder := MaxOrder(r) + 1.0;
      var startOrder := r[0].order / 2.0;
      var maxMatching := MaxMatching(r, name);
      if maxMatching == 0 then
        if Compare(r[0].name, name) > 0 then startOrder else endOrder
      else
        var firstAfter := FirstAfter(r, name, maxMatching);
        if firstAfter >= |r| then endOrder
        else if firstAfter == 0 then startOrder
        else (r[firstAfter].order + r[firstAfter - 1].order) / 2.0
  }

  /** FindBestOrder(locale, name), over the entries of the locale. */
  function FindBestOrder(c: Catalog, l: LocaleInfo, name: string): real {
    BestOrderIn(ByOrder(c, l), name)
  }

  // ---------------------------------------------------------------- queries

  /** OrderBy/ThenBy key of OrderedItems: (order or 0, name). */
  function ItemAtMost(option: SortOption): (TranslationItem, TranslationItem) -> bool {
    (a: TranslationItem, b: TranslationItem) =>
      var ka := if option == OriginalOrder then a.order else 0.0;
      var kb := if option == OriginalOrder then b.order else 0.0;
      ka < kb || (ka == kb && Compare(a.name, b.name) <= 0)
  }

  /** OrderedItems(locale, option): the entries of the locale sorted by (order, name) or by name. */
  function OrderedItems(c: Catalog, l: LocaleInfo, option: SortOption): seq<TranslationItem> {
    SortBy(Entries(c, l), ItemAtMost(option))
  }

  /** FoundTranslations: each key with the locales it has an entry for, in row order. */
  function FoundTranslations(c: Catalog): map<string, seq<LocaleInfo>> {
    map k | k in c.items :: LocalesOf(c.items[k])
  }

  /** The locales of `ls`, in order, that `row` has no entry for. */
  function MissingFrom(ls: seq<LocaleInfo>, row: seq<TranslationItem>): (r: seq<LocaleInfo>)
    ensures forall x :: x in r <==> x in ls && !HasLocale(row, x)
    decreases |ls|
  {
    if ls == [] then []
    else MissingFrom(ls[..|ls| - 1], row) + (if HasLocale(row, ls[|ls| - 1]) then [] else [ls[|ls| - 1]])
  }

  /**
   * NeededTranslations: each key lacking an entry for some known locale, with
   * those locales in the order of the known locales; fully translated keys are absent.
   */
  function NeededTranslations(c: Catalog): map<string, seq<LocaleInfo>> {
    map k | k in c.items && MissingFrom(c.locales, c.items[k]) != [] :: MissingFrom(c.locales, c.items[k])
  }

  /** The index of the first preferred locale the row has an entry for, |pref| when there is none. */
  function FirstPreferredIndex(pref: seq<LocaleInfo>, row: seq<TranslationItem>): (i: nat)
    ensures i <= |pref|
    ensures i < |pref| ==> HasLocale(row, pref[i])
    ensures forall j :: 0 <= j < i ==> !HasLocale(row, pref[j])
  {
    if pref == [] then 0
    else if HasLocale(row, pref[0]) then 0
    else
      var i := FirstPreferredIndex(pref[1..], row);
      assert forall j :: 1 <= j <= i ==> pref[j] == pref[1..][j - 1];
      i + 1
  }

  /** The first of the preferred locales the row has an entry for. */
  function FirstPreferred(pref: seq<LocaleInfo>, row: seq<TranslationItem>): (r: Option<LocaleInfo>)
    ensures r.Some? ==> r.value in pref && HasLocale(row, r.value)
    ensures r.Some? ==> exists i :: 0 <= i < |pref| && pref[i] == r.value && forall j :: 0 <= j < i ==> !HasLocale(row, pref[j])
    ensures r.None? <==> forall j :: 0 <= j < |pref| ==> !HasLocale(row, pref[j])
  {
    var i := FirstPreferredIndex(pref, row);
    if i < |pref| then Some(pref[i]) else None
  }

  /** The source locale of a key: the first preferred locale having it, else the row's first locale. */
  function SourceLocale(row: seq<TranslationItem>, pref: seq<LocaleInfo>): (src: LocaleInfo)
    requires row != []
    ensures HasLocale(row, src)
  {
    match FirstPreferred(pref, row)
    case Some(p) => p
    case None => row[0].locale
  }

  /** The entry a key is translated from: the entry of its source locale. */
  function SourceItem(c: Catalog, k: string, pref: seq<LocaleInfo>): TranslationItem
    requires k in c.items && c.items[k] != []
  {
    RowGet(c.items[k], SourceLocale(c.items[k], pref)).value
  }

  /** The requests for one key: its source entry towards each locale it lacks. */
  function RequiredFor(c: Catalog, k: string, pref: seq<LocaleInfo>): seq<Translation>
    requires k in c.items && c.items[k] != []
  {
    var dests := MissingFrom(c.locales, c.items[k]);
    seq(|dests|, j requires 0 <= j < |dests| => Translation(SourceItem(c, k, pref), dests[j]))
  }

  function RequiredOf(c: Catalog, names: seq<string>, pref: seq<LocaleInfo>): seq<Translation>
    requires forall k :: k in names ==> k in c.items && c.items[k] != []
    decreases |names|
  {
    if names == [] then []
    else RequiredOf(c, names[..|names| - 1], pref) + RequiredFor(c, names[|names| - 1], pref)
  }

  /**
   * RequiredTranslations(preferred): for every needed key, one request per
   * missing locale, from the entry of the key's source locale.
   */
  function RequiredTranslations(c: Catalog, pref: seq<LocaleInfo>): seq<Translation>
    requires Valid(c)
  {
    RequiredOf(c, c.names, pref)
  }

  /** A source entry can test a destination: it is testable and its key has that destination too. */
  predicate CanTest(c: Catalog, e: TranslationItem, dest: LocaleInfo, isTestable: TranslationItem -> bool) {
    isTestable(e) && e.name in c.items && HasLocale(c.items[e.name], dest)
  }

  /** The position of the first candidate that can serve, or the length when none can. */
  function FirstTestableIndex(c: Catalog, candidates: seq<TranslationItem>, dest: LocaleInfo, isTestable: TranslationItem -> bool): (i: nat)
    ensures i <= |candidates|
    ensures i < |candidates| ==> CanTest(c, candidates[i], dest, isTestable)
    ensures forall j :: 0 <= j < i ==> !CanTest(c, candidates[j], dest, isTestable)
    decreases |candidates|
  {
    if candidates == [] || CanTest(c, candidates[0], dest, isTestable) then 0
    else
      var i := FirstTestableIndex(c, candidates[1..], dest, isTestable);
      assert forall j :: 1 <= j < |candidates| ==> candidates[j] == candidates[1..][j - 1];
      i + 1
  }

  /** `Where(...).FirstOrDefault()`: the first candidate that can serve, or the default item. */
  function FirstTestable(c: Catalog, candidates: seq<TranslationItem>, dest: LocaleInfo, isTestable: TranslationItem -> bool): TranslationItem {
    var i := FirstTestableIndex(c, candidates, dest, isTestable);
    if i < |candidates| then candidates[i] else DefaultItem
  }

  /** `_locales.Where(dest => !dest.Equals(source))`: the other known locales, in order. */
  function OtherLocales(ls: seq<LocaleInfo>, source: LocaleInfo): (r: seq<LocaleInfo>)
    ensures forall d :: d in r <==> d in ls && !d.Equals(source)
    decreases |ls|
  {
    if ls == [] then []
    else (if ls[0].Equals(source) then [] else [ls[0]]) + OtherLocales(ls[1..], source)
  }

  /** The check of one destination: the first usable source entry, or the default item. */
  function TestFor(c: Catalog, source: LocaleInfo, dest: LocaleInfo, isTestable: TranslationItem -> bool): Translation {
    Translation(FirstTestable(c, Entries(c, source), dest, isTestable), dest)
  }

  /**
   * TestableTranslations(source, isTestable): for each other known locale, the
   * first testable source entry whose key that locale also has, or the default item.
   */
  function TestableTranslations(c: Catalog, source: LocaleInfo, isTestable: TranslationItem -> bool): seq<Translation> {
    var dests := OtherLocales(c.locales, source);
    seq(|dests|, i requires 0 <= i < |dests| => TestFor(c, source, dests[i], isTestable))
  }
}
